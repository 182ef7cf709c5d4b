/** Character codes, limits and outcome types shared by the scanner and the include extractor. */
module Chars {
  /** `fgetc`'s end-of-file value. */
  const EOF: int := -1
  /** The string terminator, also the lexer's "nothing to return" marker. */
  const NUL: int := 0
  const TAB: int := 9
  const NEWLINE: int := 10
  const SPACE: int := 32
  const QUOTE: int := 34      // '"'
  const HASH: int := 35       // '#'
  const DOT: int := 46        // '.'
  const STAR: int := 42       // '*'
  const SLASH: int := 47      // '/'
  const LT: int := 60         // '<'
  const GT: int := 62         // '>'
  const BACKSLASH: int := 92  // '\\'

  const MAX_TOKEN_LENGTH: nat := 1024
  const MAX_LINE_LENGTH: nat := 4096
  /** Capacity of `include_filenames` in `process_file`. */
  const MAX_INCLUDE_FILES: nat := 1024

  /** A byte the model accepts in a source file: 7-bit and not NUL. */
  predicate IsByte(c: int) {
    1 <= c <= 127
  }

  type Byte = c: int | IsByte(c) witness 1

  predicate IsText(s: seq<int>) {
    forall i :: 0 <= i < |s| ==> IsByte(s[i])
  }

  predicate IsBlank(c: int) {
    c == SPACE || c == TAB
  }

  /** The keyword `#include` as bytes. */
  const INCLUDE_DIRECTIVE: seq<int> := [HASH, 105, 110, 99, 108, 117, 100, 101]
  /** The keyword `include` (without `#`) as bytes. */
  const INCLUDE_KEYWORD: seq<int> := [105, 110, 99, 108, 117, 100, 101]

  /** The fatal conditions that `error_exit` reports. */
  datatype Failure =
    | UnexpectedEndOfFile        // read_include_filename: EOF before the closing quote
    | FilenameTooLong            // read_include_filename: no closing quote within the token buffer
    | MalformedInclude           // parse_include_filename: neither '<' nor '"' after `include`
    | LineTooLong                // readline_without_comments
    | UnexpectedHeaderQuote      // process_file: neither '<' nor '"' after `#include`
    | UnterminatedHeaderName     // process_file: no closing quote on the line
    | TooManyIncludes            // process_file: include_filenames is full

  datatype Option<+T> = None | Some(value: T)

  datatype Result<+T> = Ok(value: T) | Err(error: Failure)
}
