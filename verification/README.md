# cdeps scanner and `#include` extractor, modelled in Dafny

`cdeps` prints the user headers (`#include "..."`) that a C source file depends on.
It does this in four layers, and this project models each of them:

1. **Raw reader with one-slot pushback.** `readc` and `pushc` work over the bytes of the open file.
2. **Comment-stripping lexer.** `readc_source_code` and `readc_without_comments` drop `//` and `/* */` comments, keep the text inside string literals as it is, and pass a byte after a backslash inside a string through unlexed.
3. **Logical line reader.** `readline_without_comments` fills a line buffer of `MAX_LINE_LENGTH` characters.
4. **Line classifier and collector.** This is the line loop of `process_file`. It finds `#include "name"` directives and collects their names in order.

The project also models two further pieces:

- the stream-level directive helpers (`check_for_string`, `eat_whitespace`, `read_to_end_of_line`, `read_include_filename`, `parse_include_filename`), which `process_file` itself never calls;
- the extension test `is_c_filename`.

Characters are `int`s as `fgetc` returns them, and EOF is -1. Source bytes are 1..127 (`Chars.Byte`). The fatal conditions that `error_exit` reports become the values of `Chars.Failure`, returned in a `Result`.

## Modules

- `chars.dfy`, module `Chars`: character codes, the three size limits, the keyword bytes and the failure type.
- `text.dfy`, module `Text`: the searches the rest is specified with.
  - `Scan`: the first index holding a stop character.
  - `SkipBlanks`: the first index that is not a space or a tab.
  - `CommonPrefix`: the length of the common prefix of two sequences.
- `lexing.dfy`, module `Lexing`: `Lex(s, inString)`, the comment-free character stream that the remaining raw bytes `s` yield. It is a pure reference definition, and the lemmas beside it state what it does to comments and strings.
- `scanner.dfy`, module `Scanning`: class `Scanner`.
  - Its fields are the file's bytes, the read position, and the C state `pushedCh`, `nextCh` and `inside_string`.
  - Every method is proved against `Pending()`, the raw bytes still to come with the pushed-back one first.
  - Every method is also proved against `Stream()`, which is `nextCh` followed by `Lex(Pending(), insideString)`.
  - `ReadcWithoutComments` is proved to hand out exactly the head of `Stream()`.
- `directives.dfy`, module `Directives`: the five directive helpers as methods on a `Scanner`. Each states what it consumes from `Stream()` and what it reports.
- `lines.dfy`, module `Lines`: `NextLine`, the reference for one call of the line reader, and `ReadlineWithoutComments`, which fills an `array<int>` buffer.
- `includes.dfy`, module `Includes`:
  - `ClassifyLine`, the reference for what one line contributes;
  - `ScanLine`, the character walk of `process_file`, proved equal to `ClassifyLine`;
  - `Collect`, the reference for the whole scan;
  - `ProcessFile`, the loop with its `include_filenames` array, proved equal to `Collect`;
  - the as-written closing-quote search described under Findings.
- `filenames.dfy`, module `Filenames`: `is_c_filename`.

## Model

| member | source | states |
|---|---|---|
| Scanning.Scanner.constructor | cdeps.c:93-94 | A new file starts with both slots empty and its stream is the lexed file. The string flag is a parameter because the C static keeps its value from the previous file. |
| Scanning.Scanner.ReadC | cdeps.c:51-60 | A pushed-back character is returned first and the slot is emptied without moving in the file. Otherwise the next byte is returned, or EOF for good at the end. The raw bytes still to come lose exactly their head. |
| Scanning.Scanner.PushC | cdeps.c:62-64 | The slot holds the pushed character, so the pending raw bytes are that character followed by the unread file. A pushed EOF makes them empty. |
| Scanning.Scanner.SkipToEndOfSingleLineComment | cdeps.c:66-71 | Consumes everything through the first newline, or everything at end of file: the pending bytes become `AfterLineComment` of the old ones. |
| Scanning.Scanner.SkipToEndOfMultiLineComment | cdeps.c:73-89 | Consumes through the first star-slash, or to end of file, and leaves the slot empty: the pending bytes become `AfterBlockComment` of the old ones, a closer preceded by extra stars included. |
| Scanning.Scanner.CloseAfterStar | cdeps.c:80-87 | After a star, a slash closes the comment. Any other byte, EOF included, is pushed back so that the pending bytes are unchanged and the search goes on from it. |
| Scanning.Scanner.ReadcSourceCode | cdeps.c:91-140 | Either hands out the head of the logical stream, or returns NUL after a dropped block comment. NUL leaves the stream unchanged and the raw input strictly shorter. A full escape slot is returned and emptied, nothing else changing. From an empty escape slot, the escape slot is filled exactly after a backslash inside a string, and the raw slot exactly after a lone `/` outside one. A raw byte the lexer passes on, or a quote, is returned and removed from the raw bytes, and the quote flips string mode. A lone `/` outside a string is returned with only the slash gone from the raw bytes: the byte after it sits in the raw slot. |
| Scanning.Scanner.LexByte | cdeps.c:108-139 | The byte just read and the bytes after it lex to what the call hands out and what is left. The NUL case covers a dropped block comment. A byte the lexer passes on changes no state; a quote only flips string mode. A lone `/` outside a string leaves the byte after it in the raw slot and nothing else read. The slots end up filled exactly as `ReadcSourceCode` states. |
| Scanning.Scanner.ReadEscaped | cdeps.c:109-111 | After a backslash inside a string, the next raw byte (EOF included) goes into `nextCh` unlexed and string mode continues. |
| Scanning.Scanner.ReadAfterSlash | cdeps.c:119-133 | Outside a string, after `/`, hands out the head of what the lexer makes of the slash and what follows: a newline once a `//` comment is consumed, EOF at the end of file, and `/` with the next byte pushed back, so that the raw bytes are as before the call. For `/*` it returns the NUL marker once the comment is consumed. String mode stays off. |
| Scanning.Scanner.ReadcWithoutComments | cdeps.c:147-157 | Returns exactly the head of the comment-free stream and removes it. At its end it returns EOF and the stream stays empty. It never returns NUL. It leaves the two slots and the raw bytes as `ReadcSourceCode` states, lone `/` included. |
| Scanning.StreamHasNoNul | cdeps.c:147-157 | No character of the logical stream is NUL, so a NUL in the line buffer is always the terminator. |
| Lexing.LexIsLogical | cdeps.c:91-157 | From source bytes the lexer yields only source bytes. The one exception is a final EOF, when a string ends in a backslash at end of file. |
| Lexing.AfterBlockCommentStep | cdeps.c:79-86 | One step of the search for the block-comment closer, as the pushback loop takes it. |
| Lexing.AfterLineCommentSkips | cdeps.c:66-71 | A line comment's body ends at its first newline, which is consumed. Without a newline, the rest of the file goes. |
| Lexing.LineCommentBecomesNewline | cdeps.c:124-126 | `//`, its text and its newline are replaced by exactly one newline. |
| Lexing.LineCommentAtEof | cdeps.c:124-126 | A `//` comment cut off by the end of file still yields one newline. |
| Lexing.AfterBlockCommentSkips | cdeps.c:73-89 | A block comment's body ends at the first star-slash. |
| Lexing.BlockCommentVanishes | cdeps.c:127-129 | `/* ... */` yields no characters at all. |
| Lexing.UnterminatedBlockCommentVanishes | cdeps.c:76-79 | An unterminated `/*` swallows the rest of the file without an error. |
| Lexing.LoneSlash | cdeps.c:130-133 | A `/` before anything but `/` or `*` is returned as `/`, and the following byte is lexed afresh. |
| Lexing.SlashAtEof | cdeps.c:122-123 | A `/` as the last byte of the file yields end of file, not `/`. |
| Lexing.StringBodyVerbatim | cdeps.c:108-117 | Inside a string, the body up to its closing quote comes out unchanged, comment openers and escaped quotes included, and the closing quote leaves string mode. |
| Lexing.QuotedStringVerbatim | cdeps.c:108-136 | A whole string literal in code passes through unchanged, and lexing resumes outside the string after it. |
| Lexing.EscapedQuoteStaysInString | cdeps.c:109-111 | A backslash-quote inside a string is returned as is and does not end the string. |
| Lexing.CharLiteralQuoteOpensString | cdeps.c:134-136 | Character literals are not recognised: the quote in `'"'` opens string mode. |
| Lexing.PlainCodeVerbatim | cdeps.c:118-139 | Code without `/` and `"` comes out unchanged. |
| Lexing.LexOrdinary | cdeps.c:108-139 | A byte that is neither a quote nor the mode's special character (backslash in a string, `/` outside) is handed on as it is, and the lexing of the rest does not change. |
| Lexing.LexQuote | cdeps.c:112-136 | A quote is handed on as it is and flips string mode for the rest, in either mode. |
| Directives.NameOutcome | cdeps.c:196-214 | The outcome of reading a quoted name. It succeeds with the index of the first quote if that comes before EOF and within `MAX_TOKEN_LENGTH - 2` characters. It fails with FilenameTooLong exactly when the first `MAX_TOKEN_LENGTH - 2` characters hold neither quote nor EOF. |
| Directives.NameOutcomeOfQuotedName | cdeps.c:196-214 | A short name followed by its closing quote is read back exactly. |
| Directives.CheckForString | cdeps.c:159-171 | TRUE exactly when the stream starts with the text, and then just the text is consumed. Otherwise it consumes through the first mismatch, or to the end. |
| Directives.SkipBlankChars | cdeps.c:175-180 | Reads past the blanks: the character returned is the first non-blank of the stream, or EOF, and just the characters through it are consumed. It states the slots afterwards. When the raw bytes already start with blanks and a character the lexer passes on, a quote or a lone `/`, it states the raw state too. That character is the one returned, and nothing after it is consumed. The scanner is not in an escape, and only a quote changes the mode. After a `/`, the byte that follows it is in the raw slot. |
| Directives.PushedBack | cdeps.c:62-64 | What `pushc` of the character just read makes of the stream: a character the lexer passes on comes back first; a quote comes back but the rest is lexed in the other mode; a `/` outside a string replaces the byte that was read after it; a backslash in a string is lexed again after the escaped character. |
| Directives.PushedPending | cdeps.c:62-64 | A byte pushed into the empty raw slot comes before the unread bytes. |
| Directives.ReplacedPending | cdeps.c:62-64 | A byte pushed into a full raw slot takes the place of the byte that was there. |
| Directives.ReadPastBlank | cdeps.c:175-180 | One turn of the loop: past a blank, the next character read keeps `Skipping`, the loop's invariant, one index further on. |
| Directives.EatWhitespace | cdeps.c:173-185 | Consumes the blanks. At EOF nothing is pushed back. Otherwise the first non-blank goes into the RAW slot, replacing its content, so it is lexed a second time. A character the lexer passes on starts the stream again. For the other kinds the new stream is given in terms of the bytes still unread. A quote is followed by those bytes lexed in the other mode. A `/` is lexed afresh with them, and the dropped byte followed by them lexes to what came after the `/`. A backslash in a string comes after the escaped character. When it came from the escape slot, only the slots change. When the raw bytes start with blanks and a lone `/`, the dropped byte is the one after the slash, and the raw bytes are the slash and then what follows that byte. |
| Directives.PastLine | cdeps.c:187-194 | What is left once a line is consumed: a suffix of the stream. Every consumed character but the last is neither newline nor EOF. When something is left, the last consumed character is a newline or EOF. A non-empty stream always loses at least one character. |
| Directives.ReadToEndOfLine | cdeps.c:187-194 | Leaves exactly `PastLine` of the stream. |
| Directives.ReadIncludeFilename | cdeps.c:196-214 | Reports `NameOutcome` of the stream. On success the token holds the name followed by NUL, and the stream continues after the closing quote. |
| Directives.ReadOpening | cdeps.c:224-236 | On the stream left by `eat_whitespace`: `<` gives FALSE and drops the rest of the line. `"` gives TRUE with the name and NUL in the token, or the failure of `NameOutcome`, and the stream goes on after the closing quote. Anything else, EOF included, is fatal. |
| Directives.ParseIncludeFilename | cdeps.c:216-237 | Gives FALSE without `include`, having consumed the stream through the first mismatch, or all of it. After `include` and blanks, with EOF or any character but a quote, `/` or backslash next, the outcome and what is left are `ReadOpening`'s on the stream from that character. When the raw bytes hold `include`, blanks and a quote, the name is read from those bytes lexed in the mode from before the quote. When they hold `include`, blanks and a lone `/` outside a string, `ReadOpening` works on the slash and the bytes after the dropped byte, lexed afresh. |
| Directives.ReadAfterKeyword | cdeps.c:222-236 | The same three outcomes for what follows `include`, starting from an empty escape slot: by the stream after the blanks, by the raw bytes for a quote, and by the raw bytes for a lone `/`. |
| Directives.QuoteInRawSlot | cdeps.c:181 | A quote put back into the raw slot is handed out again, and the bytes after it are lexed in the mode it flips to. |
| Directives.QuotedNameAfterKeyword | cdeps.c:216-237 | For `include`, blanks and a quoted name without `/` or `"`, the blanks end at the quote. The re-lexed rest reads the name, its closing quote, and the bytes after it lexed as the inside of a string. |
| Directives.QuotedIncludeAtStart | cdeps.c:216-237 | A file that opens with `include`, blanks and `"name"` gives TRUE with exactly the name and NUL in the token. Everything after the closing quote is then lexed as the inside of a string. |
| Lines.NextLine | cdeps.c:239-266 | Gives end of input only on an empty stream or one that starts with EOF. Otherwise the line is the characters before the first newline or EOF: it holds neither, it is a prefix of the stream, and it is shorter than `MAX_LINE_LENGTH - 1`. |
| Lines.NextLineOfLine | cdeps.c:239-266 | A line followed by its newline, or by EOF or nothing at the end, is read back with the stream after it. |
| Lines.NextLineOverlong | cdeps.c:261-263 | A line is fatal exactly when `MAX_LINE_LENGTH - 1` characters pass without a terminator. |
| Lines.ReadlineWithoutComments | cdeps.c:239-266 | On end of input it returns EOF with a NUL in `buffer[0]`, and only the EOF, if the stream starts with one, is consumed. For a line it returns the length, with the buffer holding the line and then NUL, and the stream is left after the terminator. An overlong line gives LineTooLong. The rest of the buffer keeps its old contents. |
| Includes.KeywordEnd | cdeps.c:294-299 | When it finds the directive, only blanks come before it and the eight characters of `#include` end at the index it gives, where the name search starts. When it finds none, there is no `#include` anywhere in the line that only blanks precede. |
| Includes.LeadingBlanks | cdeps.c:294-296 | The blanks skipped at the start of a line are blanks, and a `#` that only blanks precede is the first character after them. |
| Includes.ClassifyName | cdeps.c:305-330 | A recorded name sits between an opening and a closing quote at the front of what follows the blanks, and contains no quote. |
| Includes.ClassifyLine | cdeps.c:291-334 | A recorded name contains no quote and is shorter than its line. |
| Includes.UserHeaderCollected | cdeps.c:307-333 | `#include "name"`, after blanks and with blanks between, records exactly `name`, whatever follows the closing quote. |
| Includes.SystemHeaderSkipped | cdeps.c:313-333 | `#include <name>` records nothing. |
| Includes.BadQuoteIsFatal | cdeps.c:316-318 | After the keyword and blanks, anything but `"` or `<` is fatal: `#includex`, a bare `#include`, any other character. |
| Includes.UnclosedNameIsFatal | cdeps.c:321-329 | A name not closed on its line is fatal. |
| Includes.NameClosed | cdeps.c:319-329 | The name runs from the opening character to the first matching closer. Without a closer it is fatal. |
| Includes.ClassifyAfterKeyword | cdeps.c:294-303 | On a line of blanks, the keyword and blanks, the outcome depends only on what follows them. |
| Includes.NoHashNoDirective | cdeps.c:298 | A line without `#` records nothing and is never fatal. |
| Includes.CollectedNameShape | cdeps.c:294-333 | Conversely, every recorded name comes from a line made of blanks, `#include`, blanks, and the name between two quotes. |
| Includes.ScanLine | cdeps.c:292-330 | The character walk over the NUL-terminated buffer gives exactly `ClassifyLine` of the line. |
| Includes.ScanName | cdeps.c:305-330 | The opening-character check and the closer search give exactly `ClassifyName` of the rest of the line. |
| Includes.StartsWithDirective | cdeps.c:298 | `strncmp` over eight characters is zero exactly when `#include` starts at the current position. A NUL before that differs from every keyword byte. |
| Includes.Collect | cdeps.c:291-335 | What the scan of a stream collects after the names found so far. It keeps them as a prefix and holds at most `MAX_INCLUDE_FILES` names. |
| Includes.CollectLine | cdeps.c:291-333 | One well-formed line appends its contribution, and the scan goes on after its newline. |
| Includes.CollectJoin | cdeps.c:291-335 | Over well-formed lines the names are appended in line order with repeats kept, and the scan then goes on with what follows. |
| Includes.CollectAll | cdeps.c:291-335 | A file of well-formed lines yields exactly their names. |
| Includes.FatalLineStops | cdeps.c:291-335 | The first fatal line ends the scan with its failure, whatever follows it. |
| Includes.ProcessFile | cdeps.c:291-335 | The line loop with its buffer and its `include_filenames` array returns exactly `Collect` of the file's logical stream. |
| Includes.NameAsWritten | cdeps.c:319-329 | The closer search as written: it runs past the line's NUL. A name it records is shorter than the line. |
| Includes.ClassifyAsWritten | cdeps.c:292-330 | The classification as written, over the whole line buffer. A name it records is shorter than the line. |
| Includes.NameAsWrittenAgrees | cdeps.c:319-329 | Where the line holds its closer, the as-written search finds the same name. |
| Includes.AsWrittenAgreesOnClosedNames | cdeps.c:292-330 | Except for a name left open on its line, the as-written and corrected classifications agree. |
| Includes.StaleQuoteClosesOpenName | cdeps.c:321-329 | A quote after the NUL closes a name the line left open. |
| Includes.StaleQuoteClosesName | cdeps.c:321-329 | A line `#include "name` is rejected by the corrected classification. As written, a stale quote after its NUL makes it record `name`. |
| Filenames.LastDot | cdeps.c:349 | `strrchr`: no dot at all, or a dot with none after it. |
| Filenames.IsCFilename | cdeps.c:348-356 | True exactly when the name ends in `.c`. The suffix from the last dot must be exactly `.c`. |
| Filenames.CFilenameExamples | cdeps.c:348-356 | `a.b.c` is a C file. `foo.c.h`, `foo` and `c` are not. |

## Left out

- Directory traversal and file-type checks (`process_folder`, `is_c_file`, `stat` in `main`): filesystem I/O.
- `join_path_elements`: string building for the traversal.
- Usage checks, exit codes and every `printf`/`puts`, including the list `process_file` prints at the end: console I/O. `error_exit` is a `Failure` result.
- `fopen` failure and `fclose` in `process_file`: `ProcessFile` works on a `Scanner` over the file's bytes.
- `clonestr`, `malloc` and `free`: a collected name is a `seq` copy.
- Bytes outside 1..127: their behaviour comes from C `char` signedness and from the 0 sentinels. This includes the truncation of `pushc`'s `char` parameter, which matters only for such bytes and for EOF, which the model pushes back as -1.
- The `nextCh` static carried from one file to the next: `Scanning.Scanner.constructor` starts with it empty. It is only non-empty between a backslash and the byte after it, and the line loop reads every file to EOF.
- `Scanning.Scanner.constructor`: takes the leftover `inside_string` as a parameter instead of tracking it across files.
- `*line = 0` at cdeps.c:326, which cuts the name in the buffer: the model returns the name as a sequence instead. The same write also erases the closing quote in the line buffer, which is reused for the next line, so that quote can never be found again as a stale closer. `Includes.ClassifyAsWritten` takes the bytes after the line's NUL as given and does not carry the buffer from one line to the next.
- Directives.ParseIncludeFilename: the outcome is not stated in three cases. The character after the blanks may be a quote or a lone `/` while the raw bytes do not start with `include`, blanks and that character (for example when a comment or an escape precedes it). It may be a `/` inside a string. Or it may be a backslash. In these cases the character is lexed a second time and the outcome depends on the raw bytes around it, which `Directives.EatWhitespace` does not fix (see its line below).
- Directives.ReadAfterKeyword: leaves the same cases unstated as `ParseIncludeFilename`, for the same reason.
- Directives.EatWhitespace: the new raw state is not fixed when the first non-blank is a quote, a `/` outside a string or a backslash inside one, and it is not the next raw byte after the blanks. That happens when it is reached through a comment or after a blank from the escape slot. The contract then relates the new stream to the old one only through the bytes still unread, and more than one read position fits. An example is `/*c*//x/*d*/abc`, where the `/` may be followed by `/*d*/abc` or by `abc`. The `/` is lexed a second time, so what it becomes depends on which.
- `include_filenames[1024]` is written without a bound check at cdeps.c:332: `Collect` and `ProcessFile` report a 1025th name as `TooManyIncludes` instead of writing past the array.
- ScanLine: stops the closer search at the line's NUL and reports `UnterminatedHeaderName`. The search as written is kept in `Includes.NameAsWritten`; see Findings.
- `MAX_INCLUDE_FILES` is defined at cdeps.c:13 with a stray `=` and is never used. The capacity 1024 is taken from cdeps.c:282.

## Findings

| source | as written | input that shows it | evidently intended | confidence | as-written member | corrected member |
|---|---|---|---|---|---|---|
| cdeps.c:321-329 | The search for the closing character has no stop at the line's NUL, so the check after it always succeeds and "Unexpected end of include filename" is unreachable. The search runs on into bytes that a longer earlier line left in the buffer, and past the buffer when there are none. | The line `s = "abcdefgh";` followed by the line `#include "x`: the buffer then reads `#include "x`, NUL, `h";`. The stale quote at index 13 closes the name and `x` is recorded. A directive line can leave one too, since `*line = 0` erases only its first closer. For example, after `#include "a.h" x"` the quote at index 16 closes the name on a later line `#include "x`. | A name not closed on its own line is the fatal "Unexpected end of include filename". | not executed | Includes.StaleQuoteClosesName | Includes.ScanLine |
