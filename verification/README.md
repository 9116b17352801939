# spchk in Dafny

A model of the spell checker `spchk.c`, a C program that takes a dictionary
(a word list) and text files and prints every word of a text file that the
dictionary does not accept, with its line and column.

What is modelled, module by module:

- `WordSet` (`word_set.dfy`): the dictionary's chained hash table. It has
  100003 buckets and uses the djb2 hash, wrapping at 64 bits. Its abstract
  view is the set of words stored in any chain. Covers `hash`, `insertWord`,
  `findWord` and `isWordInDictionary`, which only forwards to `findWord`.
- `Casing` (`casing.dfy`): `toAllCaps`; the initial-capital variant that
  `loadDictionary` builds by copying the word and upper-casing index 0; and
  `toInitialCap`, which nothing in the program calls.
- `Dictionary` (`dictionary.dfy`): `loadDictionary` as a left fold over the
  dictionary bytes.
  - A word is cut at `' '`, `'\n'` and NUL.
  - Only its first 100 characters are kept.
  - It is inserted verbatim, with its first character upper-cased, and in
    all caps.
  - A word with no boundary after it is inserted at the end.
  - The state survives from one `read` to the next.
- `Tokenizer` (`tokenizer.dfy`): the scan inside `checkSpelling`.
  - It tracks the line, the column, the token being collected and the
    column where it started.
  - It also gives a description by position (which bytes are inside a
    token, where a token starts, the line and column counters in closed
    form). A lemma proves the scan produces exactly that description.
- `Normalize` (`normalize.dfy`): `stripPunctuation`, as a function and as
  the C loops.
- `Hyphen` (`hyphen.dfy`): `isHyphenated`, the pieces `strtok(…, "-")`
  returns, and `checkHyphenatedWord`.
- `SpellCheck` (`spell_check.dfy`): what `checkSpelling` decides and
  reports for each token, and its read loop over successive chunks.
- `Paths` (`paths.dfy`): `isTextFile`.
- `Ascii` and `Strings`: `isalnum`/`toupper`/`tolower` in the C locale, and
  helpers such as `strrchr` and splitting at separators.
- `Example` (`example.dfy`): one complete run. The dictionary
  `"cat dog\nfish"` is read four bytes at a time, then the document
  `"Cat dogg fish-cat"` is checked. The only report is `dogg` at line 1,
  column 6.

Behaviour of `spchk.c` that the model keeps exactly as written:

- The column counter starts at 1 and is incremented before a token's start
  column is taken from it. So the first byte of line 1 is at column 2, and
  the example above reports `dogg` at (1,6).
- The reported line is the line counter when the token ends. A word ended by
  a newline carries the next line's number.
- `strtok` skips empty pieces, so `a--b` is checked as `a` and `b`.
- A reported word is never empty. Every token starts with a letter or digit,
  and cleaning keeps it.

## Model

| member | source | states |
|---|---|---|
| WordSet.Djb2 | spchk.c:57-64 | the running hash value stays below 2^64, the range of `unsigned long` |
| WordSet.Hash | spchk.c:57-66 | every bucket index is below TABLE_SIZE (100003), so every bucket access is in bounds |
| WordSet.Empty | spchk.c:24 | the table before loading has every chain empty, stores no word and is valid |
| WordSet.Insert | spchk.c:82-89 | insertion keeps the bucket count and validity; the chosen chain grows by exactly one node and no other chain changes |
| WordSet.InsertContents | spchk.c:82-89 | the stored set gains exactly the inserted word; inserting a word already present leaves the set unchanged, though no duplicate check is made |
| WordSet.Find | spchk.c:69-80 | on a valid table the lookup succeeds exactly when the word is in the stored set |
| WordSet.FindContents | spchk.c:69-80 | on a valid table, being in the hash-selected chain is the same as being stored anywhere |
| WordSet.FindWord | spchk.c:69-80 | walking the chain finds the word exactly when it occurs in the chain, and so exactly when it is stored |
| WordSet.FindAfterInsert | spchk.c:69-89 | after inserting w, w is found; any other word is found exactly as before; inserting a word already found changes no lookup |
| Casing.ToAllCaps | spchk.c:320-331 | the result has the same length, and each character is `toupper` of the source character at that index |
| Casing.CapitalizeFirst | spchk.c:121-123 | the loader's initial-capital variant has the word's length; its first character is `toupper` of the word's and every later character is copied unchanged; it is a different word exactly when the word starts with a lower-case letter |
| Casing.ToAllLower | spchk.c:312 | the result has the same length, and each character is `tolower` of the source character |
| Casing.ToInitialCap | spchk.c:307-317 | same length; the first character is upper-cased and every later one lower-cased |
| Casing.AllCapsIdempotent | spchk.c:320-331 | applying toAllCaps twice gives the same result as applying it once |
| Casing.AllCapsFixes | spchk.c:320-331 | a word equals its all-caps form exactly when it has no lower-case letter |
| Casing.CapitalizeFirstIsAllCaps | spchk.c:119-126 | the initial-cap and all-caps variants coincide exactly when no character after the first is lower-case |
| Casing.InitialCapDiffers | spchk.c:307-317 | toInitialCap agrees with the loader's variant exactly when no character after the first is upper-case, e.g. "eBay" differs |
| Dictionary.InsertEntries | spchk.c:118-126 | the three insertions for a word keep the table well formed and valid |
| Dictionary.InsertEntriesContents | spchk.c:118-126 | the stored set gains exactly the word, its initial-cap variant and its all-caps form |
| Dictionary.Step | spchk.c:108-139 | one byte: a boundary ends the word and adds the three entries of a non-empty word to the stored set; any other byte extends the word, cut to 100 characters, and leaves the table unchanged; validity is kept |
| Dictionary.Feed | spchk.c:106-140 | during the read loop the partial word never exceeds 100 characters and the table stays valid |
| Dictionary.Finish | spchk.c:142-155 | after the last read, the stored set gains the three entries of a word still under way, and nothing else; validity is kept |
| Dictionary.LoadDictionary | spchk.c:104-155 | the loaded table is valid, so every later lookup agrees with the stored set |
| Dictionary.FeedChunks | spchk.c:106-140 | feeding the reads one after another gives the same state as feeding their concatenated content |
| Dictionary.LoadChunks | spchk.c:106-155 | loading from successive reads builds the same table as loading the whole content at once |
| Dictionary.FeedAppend | spchk.c:106-140 | the loop state after a+b is the state after a, continued with b |
| Dictionary.Truncate | spchk.c:134-137 | a kept word has at most 100 characters |
| Dictionary.Runs | spchk.c:111 | the runs between boundaries are non-empty and contain no space, newline or NUL |
| Dictionary.FeedContents | spchk.c:106-155 | from any state, the table gains the entries of the partial word joined with the first run, plus those of every later run |
| Dictionary.LoadedWords | spchk.c:104-155 | a word is stored exactly when it is one of the three entries of some run, cut to 100 characters; this includes a final run with no boundary after it |
| Dictionary.ChunksDoNotMatter | spchk.c:106-140 | two ways of splitting the same content into reads give the same table |
| Dictionary.EntriesCollapse | spchk.c:118-126 | the three entries of a word are one and the same exactly when it has no lower-case letter |
| Tokenizer.Step | spchk.c:240-278 | one byte: a token is handed on exactly when one is under way and the byte cannot continue it, and it carries the updated line; a token is under way afterwards exactly when the byte continues one, and then the byte is appended |
| Tokenizer.Feed | spchk.c:234-278 | the loop only appends tokens: those already handed on are never taken back, so each can be judged as soon as it is handed on |
| Tokenizer.FeedCount | spchk.c:237-278 | counting the token under way, each byte adds at most one token |
| Tokenizer.Finish | spchk.c:281-297 | after the last read, the tokens handed on are kept, followed by the token still under way if there is one |
| Tokenizer.Tokens | spchk.c:232-297 | a document yields no more tokens than it has bytes |
| Tokenizer.FeedChunks | spchk.c:234-278 | the scan state carried across reads equals the scan over the concatenated content |
| Tokenizer.TokensOfChunks | spchk.c:234-297 | the tokens do not depend on where the reads split the content |
| Tokenizer.FeedAppend | spchk.c:234-278 | the scan of a+b is the scan of a continued with b |
| Tokenizer.TokenStart | spchk.c:250-254 | a token starts at a letter or digit that does not continue an earlier token, and every byte from there up to the given position belongs to the token |
| Tokenizer.LineStep | spchk.c:240-243 | the line counter grows by one exactly at each newline |
| Tokenizer.ColumnStep | spchk.c:240-248 | the column counter is 0 after a newline and otherwise grows by one per byte |
| Tokenizer.TokensAreReference | spchk.c:232-297 | the scan's tokens are exactly the maximal runs of token bytes; each carries the line counter at its end and the column of its first byte |
| Tokenizer.StepTracks | spchk.c:238-278 | one byte of the loop keeps the scan state equal to its description by position |
| Tokenizer.FeedTracks | spchk.c:232-278 | after any number of bytes, the counters, the token under way, its start column and the tokens handed on are as the description by position says |
| Tokenizer.EndingShape | spchk.c:250-258 | a token starts with a letter or digit and holds only letters, digits, apostrophes and hyphens |
| Tokenizer.TokenShape | spchk.c:250-258 | every token handed on, including the last, starts with a letter or digit and holds only letters, digits, `'` and `-` |
| Tokenizer.LastTokenKept | spchk.c:281-284 | a token running to the end of the input is still handed on, as the last token |
| Tokenizer.FirstColumn | spchk.c:232-248 | in any non-empty document whose first byte is not a newline, that byte is at column 2 |
| Tokenizer.ColumnAfterNewline | spchk.c:240-248 | a byte that follows a newline and is not itself a newline is at column 1 |
| Tokenizer.NewlineEndsOnNextLine | spchk.c:240-267 | a token ended by a newline is reported with the line number after its own |
| Tokenizer.BufferFits | spchk.c:255-256 | when no token reaches 1023 bytes, the collected token stays below the buffer limit at every step, so the early break is never taken |
| Normalize.FirstAlnum | spchk.c:353-357 | the index of the first letter or digit, with none before it |
| Normalize.EndAlnum | spchk.c:367-371 | one past the last letter or digit, with none after it |
| Normalize.Strip | spchk.c:343-381 | the result is empty exactly when the word has no letter or digit; otherwise it begins and ends with one and is no longer than the word |
| Normalize.StripIsTheStretch | spchk.c:343-381 | the result is the unique stretch that begins and ends with a letter or digit and has none outside it |
| Normalize.StripKeeps | spchk.c:343-381 | a word that begins and ends with a letter or digit is returned unchanged |
| Normalize.StripPunctuation | spchk.c:343-381 | the two index loops and the copy compute exactly that stretch |
| Normalize.StripIdempotent | spchk.c:343-381 | stripping twice is stripping once |
| Hyphen.IsHyphenated | spchk.c:383-388 | a word holds a hyphen exactly when its leading hyphen-free stretch stops short of its end |
| Hyphen.HyphenatedPieces | spchk.c:383-422 | a non-empty word holds a hyphen exactly when `strtok`'s pieces are not the word itself, so only then can the hyphen check differ from a plain lookup |
| Hyphen.DashFree | spchk.c:408 | the length of the leading hyphen-free stretch, which ends at a hyphen or at the end |
| Hyphen.Pieces | spchk.c:405-419 | every piece `strtok` returns is non-empty and contains no hyphen |
| Hyphen.PiecesAreFields | spchk.c:405-419 | the pieces are exactly the non-empty pieces between hyphens, in order |
| Hyphen.DoubleHyphen | spchk.c:405-419 | "a--b" is checked as exactly "a" and "b" |
| Hyphen.PiecesWhole | spchk.c:405-419 | a non-empty, hyphen-free word is its own single piece |
| Hyphen.PiecesCons | spchk.c:405-419 | a non-empty, hyphen-free word followed by a hyphen is the first piece, followed by the pieces of the rest |
| Hyphen.PiecesOfJoin | spchk.c:405-419 | cutting a hyphen-joined list of non-empty, hyphen-free pieces gives back the list |
| Hyphen.AllFound | spchk.c:410-418 | the loop over the pieces succeeds exactly when every piece is stored |
| Hyphen.CheckHyphenated | spchk.c:390-422 | a word is accepted exactly when it is stored whole, or else every piece is stored |
| Hyphen.MotherInLaw | spchk.c:390-422 | "mother-in-law" is accepted exactly when it is stored whole, or "mother", "in" and "law" all are |
| Hyphen.UnhyphenatedIsLookup | spchk.c:390-422 | a word without a hyphen is its own single piece, so the hyphen check would decide it like a plain lookup |
| Strings.LastIndexOf | spchk.c:205 | `strrchr`: the index found holds the character, and no later index does |
| Paths.IsTextFile | spchk.c:203-207 | a name is a text file exactly when it ends in ".txt": the text after its last '.' is ".txt", and "txt" holds no '.' |
| SpellCheck.Accepted | spchk.c:263-274 | on a valid table a cleaned word is accepted exactly when it is stored, or it holds a hyphen and all its pieces are stored |
| SpellCheck.Judge | spchk.c:258-278 | there are no more reports than tokens, and every report carries a word the dictionary rejects |
| SpellCheck.JudgeFrom | spchk.c:258-278 | every report is the report of one of the tokens |
| SpellCheck.JudgeAll | spchk.c:258-278 | every token whose cleaned word is rejected is reported |
| SpellCheck.JudgeMeans | spchk.c:258-297 | for any token sequence, a report is produced exactly when it is the report of one of the tokens and the dictionary does not know its word |
| SpellCheck.JudgeAppend | spchk.c:258-297 | the reports come in document order: those of earlier tokens come first |
| SpellCheck.Consume | spchk.c:238-278 | one byte of the loop: the scan takes a step and a token it ends is judged immediately |
| SpellCheck.ReadByte | spchk.c:237-278 | one byte of a read is scanned and any token it ends is judged; the token under way stays below the buffer limit |
| SpellCheck.ReadChunk | spchk.c:234-278 | one successful read: all its bytes are scanned in order, and the reports so far are those of the tokens handed on so far |
| SpellCheck.Flush | spchk.c:281-297 | after the last read, the token still under way is judged too |
| SpellCheck.FeedSnoc | spchk.c:236-238 | scanning one more byte of the current read is one more step of the scan |
| SpellCheck.FitsWhileReading | spchk.c:255-256 | when no token reaches 1023 bytes, the buffer is never full at any byte of any read |
| SpellCheck.CheckDocument | spchk.c:232-297 | the reports for a document are no more than its tokens, and each carries a non-empty word that the dictionary rejects |
| SpellCheck.CheckSpelling | spchk.c:219-297 | the read loop over successive chunks reports exactly what checking the whole content at once reports |
| SpellCheck.Mismatches | spchk.c:232-297 | a mismatch is reported exactly when it comes from a maximal token whose cleaned word is unknown to the dictionary |
| SpellCheck.CleanToken | spchk.c:258-261 | cleaning a token gives a non-empty prefix of it; only trailing apostrophes and hyphens are dropped |
| SpellCheck.ReportsNonEmpty | spchk.c:258-274 | no report for a document's tokens carries an empty word |
| SpellCheck.ShortFits | spchk.c:255-256 | a document shorter than the buffer cannot overflow it |
| Example.WordThenSpace | spchk.c:240-278 | a word followed by a space, scanned with no token under way, is handed on with the column after the current one |
| Example.ThreeTokens | spchk.c:232-297 | three space-separated tokens on line 1 start at column 2, then two columns after the end of the previous token |
| Example.ThreeWords | spchk.c:104-155 | loading three short words separated by a space and a newline stores exactly their entries |
| Example.DictionaryWords | spchk.c:104-155 | "cat dog\nfish" read four bytes at a time stores cat, Cat, CAT, dog, Dog, DOG, fish, Fish and FISH, and nothing else |
| Example.DocumentTokens | spchk.c:232-297 | "Cat dogg fish-cat" has the tokens Cat at (1,2), dogg at (1,6) and fish-cat at (1,11) |
| Example.Decide | spchk.c:258-297 | against those nine words, the only report for the document is dogg at (1,6) |
| Example.EndToEnd | spchk.c:92-297 | the whole run, loading the dictionary and checking the document, reports dogg at (1,6) and nothing else |

## Left out

- File and directory handling is not part of this model. That covers `main`, `processDirectory` and `processFile`, and the `open`, `read`, `close`, `write`, `stat` and `opendir` calls. The dictionary and each document are byte sequences, and a document may be given as the sequence of its read results.
- Error exits: `loadDictionary` exits the program when the dictionary cannot be opened or read (spchk.c:95-99, 157-162), and so does `createNode` when `malloc` fails (spchk.c:30-34). These are not modelled; the dictionary is given as the bytes read. `checkSpelling` does not exit. When it cannot open a document it writes a message and returns, and the next file is processed (spchk.c:221-226); that path is left out with file handling. When a `read` fails it ends the loop, still judges the token under way (spchk.c:281-297) and then writes a message (spchk.c:299-302). SpellCheck.CheckSpelling over the reads that succeeded models that path; the message is left out with the other output.
- The `printf` output is not modelled. A report is the triple (line, column, word), without the file path.
- SpellCheck.CheckDocument and SpellCheck.CheckSpelling: require that no token reaches 1023 bytes (`TokensFit`). When the buffer fills, the C code does not truncate the token: it breaks out of the current read, drops the rest of that read and can later write past the buffer. The same requirement is on SpellCheck.ReadChunk and SpellCheck.ReadByte.
- Bytes outside ASCII are treated as in the C locale: not letters or digits, and unchanged by `toupper` and `tolower`. Passing a negative `char` to `isalnum` or `toupper`, as lines 123 and 250 do, is undefined behaviour in C.
- WordSet.Djb2: adds the character code as a non-negative number. The C code adds a `char` widened to `int`, which is negative for bytes above 127 where `char` is signed.
- Memory ownership is not modelled: node allocation, `strdup` and `free`. `strdup` failing in `checkHyphenatedWord` (returning false) is left out with it.
- The bucket table is a value, not a global array of linked lists. A chain is a sequence whose head is its first element.
