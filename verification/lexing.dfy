// The comment-free logical character stream, as a pure reference definition.
//
// `Lex(s, inString)` is the sequence of characters that `readc_without_comments`
// hands out when the raw bytes still to be read are `s` and the string flag is
// `inString`: line comments become one newline, block comments vanish, text
// inside `"..."` is passed through, and a backslash inside a string protects the
// byte after it.  The scanner in scanner.dfy is proved to produce exactly this
// stream; the lemmas below state what it means.
module Lexing {
  import opened Chars

  /** Raw bytes left after the body of a `//` comment: all is consumed through the first newline. */
  function AfterLineComment(s: seq<int>): (r: seq<int>)
    ensures |r| <= |s| && (IsText(s) ==> IsText(r))
  {
    if s == [] then []
    else if s[0] == NEWLINE then s[1..]
    else AfterLineComment(s[1..])
  }

  // Does the block-comment closer (star, slash) occur in `s`?
  predicate HasCloser(s: seq<int>) {
    |s| >= 2 && ((s[0] == STAR && s[1] == SLASH) || HasCloser(s[1..]))
  }

  // Raw bytes left after the body of a block comment: all is consumed through the
  // first closer (star, slash), or to the end of file.
  function AfterBlockComment(s: seq<int>): (r: seq<int>)
    ensures |r| <= |s| && (IsText(s) ==> IsText(r))
    ensures !HasCloser(s) ==> r == []
  {
    if |s| < 2 then []
    else if s[0] == STAR && s[1] == SLASH then s[2..]
    else AfterBlockComment(s[1..])
  }

  /** One step of the search for the closer, as the pushback loop in the scanner takes it. */
  lemma AfterBlockCommentStep(s: seq<int>)
    requires s != []
    ensures |s| >= 2 && s[0] == STAR && s[1] == SLASH ==> AfterBlockComment(s) == s[2..]
    ensures !(|s| >= 2 && s[0] == STAR && s[1] == SLASH) ==> AfterBlockComment(s) == AfterBlockComment(s[1..])
  {
  }

  /** Every element is a source byte, except that the last may be EOF (an escape cut off by the end of file). */
  predicate LogicalText(r: seq<int>) {
    forall i :: 0 <= i < |r| ==> IsByte(r[i]) || (r[i] == EOF && i == |r| - 1)
  }

  /** The logical characters produced from raw bytes `s`, starting inside a string literal or not. */
  function Lex(s: seq<int>, inString: bool): seq<int>
    decreases |s|
  {
    if s == [] then []
    else if inString then
      if s[0] == BACKSLASH then
        // the escaped byte is read raw; at the end of file it is EOF itself
        if |s| == 1 then [BACKSLASH, EOF] else [BACKSLASH, s[1]] + Lex(s[2..], true)
      else if s[0] == QUOTE then [QUOTE] + Lex(s[1..], false)
      else [s[0]] + Lex(s[1..], true)
    else if s[0] == SLASH then
      if |s| == 1 then []
      else if s[1] == SLASH then [NEWLINE] + Lex(AfterLineComment(s[2..]), false)
      else if s[1] == STAR then Lex(AfterBlockComment(s[2..]), false)
      else [SLASH] + Lex(s[1..], false)
    else if s[0] == QUOTE then [QUOTE] + Lex(s[1..], true)
    else [s[0]] + Lex(s[1..], false)
  }

  /**
   * The lexer never produces the NUL marker nor any other non-byte, except for a
   * single EOF at the very end when a string ends in a backslash at end of file.
   */
  lemma {:induction false} LexIsLogical(s: seq<int>, inString: bool)
    requires IsText(s)
    ensures LogicalText(Lex(s, inString))
    decreases |s|
  {
    if s == [] {
    } else if inString {
      if s[0] == BACKSLASH {
        if |s| > 1 {
          LexIsLogical(s[2..], true);
        }
      } else if s[0] == QUOTE {
        LexIsLogical(s[1..], false);
      } else {
        LexIsLogical(s[1..], true);
      }
    } else if s[0] == SLASH {
      if |s| == 1 {
      } else if s[1] == SLASH {
        LexIsLogical(AfterLineComment(s[2..]), false);
      } else if s[1] == STAR {
        LexIsLogical(AfterBlockComment(s[2..]), false);
      } else {
        LexIsLogical(s[1..], false);
      }
    } else if s[0] == QUOTE {
      LexIsLogical(s[1..], true);
    } else {
      LexIsLogical(s[1..], false);
    }
  }

  // ---------------------------------------------------------------- comments

  lemma {:induction false} AfterLineCommentSkips(body: seq<int>, rest: seq<int>)
    requires NEWLINE !in body
    ensures AfterLineComment(body + [NEWLINE] + rest) == rest
    ensures AfterLineComment(body) == []
  {
    if body != [] {
      assert (body + [NEWLINE] + rest)[1..] == body[1..] + [NEWLINE] + rest;
      AfterLineCommentSkips(body[1..], rest);
    }
  }

  /** `//` and its text through the next newline are replaced by exactly one newline. */
  lemma LineCommentBecomesNewline(body: seq<int>, rest: seq<int>)
    requires NEWLINE !in body
    ensures Lex([SLASH, SLASH] + body + [NEWLINE] + rest, false) == [NEWLINE] + Lex(rest, false)
  {
    var s := [SLASH, SLASH] + body + [NEWLINE] + rest;
    assert s[2..] == body + [NEWLINE] + rest;
    AfterLineCommentSkips(body, rest);
  }

  /** A `//` comment cut off by the end of file still yields one newline. */
  lemma LineCommentAtEof(body: seq<int>)
    requires NEWLINE !in body
    ensures Lex([SLASH, SLASH] + body, false) == [NEWLINE]
  {
    assert ([SLASH, SLASH] + body)[2..] == body;
    AfterLineCommentSkips(body, []);
  }

  lemma {:induction false} AfterBlockCommentSkips(body: seq<int>, rest: seq<int>)
    requires !HasCloser(body)
    ensures AfterBlockComment(body + [STAR, SLASH] + rest) == rest
  {
    var s := body + [STAR, SLASH] + rest;
    if body != [] {
      assert s[1..] == body[1..] + [STAR, SLASH] + rest;
      assert !(s[0] == STAR && s[1] == SLASH) by {
        if |body| >= 2 { assert s[1] == body[1]; } else { assert s[1] == STAR; }
      }
      assert !HasCloser(body[1..]);
      AfterBlockCommentSkips(body[1..], rest);
    }
  }

  // A block comment yields nothing, newlines and a closer preceded by extra stars included.
  lemma BlockCommentVanishes(body: seq<int>, rest: seq<int>)
    requires !HasCloser(body)
    ensures Lex([SLASH, STAR] + body + [STAR, SLASH] + rest, false) == Lex(rest, false)
  {
    var s := [SLASH, STAR] + body + [STAR, SLASH] + rest;
    assert s[2..] == body + [STAR, SLASH] + rest;
    AfterBlockCommentSkips(body, rest);
  }

  // A block comment that is never closed swallows the rest of the file without an error.
  lemma UnterminatedBlockCommentVanishes(body: seq<int>)
    requires !HasCloser(body)
    ensures Lex([SLASH, STAR] + body, false) == []
  {
    assert ([SLASH, STAR] + body)[2..] == body;
  }

  /** A `/` not followed by `/`, `*` or the end of file is an ordinary character; the next byte is lexed afresh. */
  lemma LoneSlash(c: int, rest: seq<int>)
    requires c != SLASH && c != STAR
    ensures Lex([SLASH, c] + rest, false) == [SLASH] + Lex([c] + rest, false)
  {
    assert ([SLASH, c] + rest)[1..] == [c] + rest;
  }

  /** A `/` as the last byte of the file yields end of file, not `/`. */
  lemma SlashAtEof()
    ensures Lex([SLASH], false) == []
  {
  }

  // ----------------------------------------------------------------- strings

  /** The inside of a string literal: no unescaped quote, and every backslash has a byte after it. */
  predicate StringBody(s: seq<int>)
    decreases |s|
  {
    s == [] ||
    (s[0] == BACKSLASH && |s| >= 2 && StringBody(s[2..])) ||
    (s[0] != BACKSLASH && s[0] != QUOTE && StringBody(s[1..]))
  }

  lemma {:induction false} StringBodyVerbatim(body: seq<int>, rest: seq<int>)
    requires StringBody(body)
    ensures Lex(body + [QUOTE] + rest, true) == body + [QUOTE] + Lex(rest, false)
    decreases |body|
  {
    hide Lex;
    var s := body + [QUOTE] + rest;
    var out := Lex(rest, false);
    if body == [] {
      assert s == [QUOTE] + rest;
      LexStringStep(s);
    } else if body[0] == BACKSLASH {
      var t := body[2..];
      assert s[0] == BACKSLASH && s[1] == body[1];
      assert s[2..] == t + [QUOTE] + rest;
      LexStringStep(s);
      StringBodyVerbatim(t, rest);
      assert body + [QUOTE] + out == [BACKSLASH, body[1]] + (t + [QUOTE] + out);
    } else {
      var t := body[1..];
      assert s[0] == body[0];
      assert s[1..] == t + [QUOTE] + rest;
      LexStringStep(s);
      StringBodyVerbatim(t, rest);
      assert body + [QUOTE] + out == [body[0]] + (t + [QUOTE] + out);
    }
  }

  /** One step of `Lex` inside a string literal on a nonempty input. */
  lemma LexStringStep(s: seq<int>)
    requires s != []
    ensures s[0] == BACKSLASH && |s| >= 2 ==> Lex(s, true) == [BACKSLASH, s[1]] + Lex(s[2..], true)
    ensures s[0] == QUOTE ==> Lex(s, true) == [QUOTE] + Lex(s[1..], false)
    ensures s[0] != BACKSLASH && s[0] != QUOTE ==> Lex(s, true) == [s[0]] + Lex(s[1..], true)
  {
  }

  // A string literal passes through unchanged: comment openers and escaped quotes
  // inside it are neither comments nor its end; only its closing quote leaves string mode.
  lemma QuotedStringVerbatim(body: seq<int>, rest: seq<int>)
    requires StringBody(body)
    ensures Lex([QUOTE] + body + [QUOTE] + rest, false) == [QUOTE] + body + [QUOTE] + Lex(rest, false)
  {
    assert ([QUOTE] + body + [QUOTE] + rest)[1..] == body + [QUOTE] + rest;
    StringBodyVerbatim(body, rest);
  }

  /** Inside a string an escaped quote is returned and string mode continues. */
  lemma EscapedQuoteStaysInString(rest: seq<int>)
    ensures Lex([BACKSLASH, QUOTE] + rest, true) == [BACKSLASH, QUOTE] + Lex(rest, true)
  {
    assert ([BACKSLASH, QUOTE] + rest)[2..] == rest;
  }

  /** Character literals are not recognised: the quote in `'"'` opens string mode. */
  lemma CharLiteralQuoteOpensString(rest: seq<int>)
    ensures Lex([39, QUOTE, 39] + rest, false) == [39, QUOTE, 39] + Lex(rest, true)
  {
    var s := [39, QUOTE, 39] + rest;
    assert s[1..] == [QUOTE, 39] + rest;
    assert s[2..] == [39] + rest;
    assert s[3..] == rest;
    assert Lex(s[2..], true) == [39] + Lex(rest, true);
    assert Lex(s[1..], false) == [QUOTE] + Lex(s[2..], true);
  }

  // ------------------------------------------------------- one byte at a time

  /** A byte the lexer hands on as it is, leaving the string flag alone. */
  predicate Ordinary(c: int, inString: bool) {
    c != QUOTE && c != (if inString then BACKSLASH else SLASH)
  }

  /** Bytes that are all ordinary in the given string mode. */
  predicate OrdinaryText(t: seq<int>, inString: bool) {
    forall i :: 0 <= i < |t| ==> Ordinary(t[i], inString)
  }

  /** Raw bytes that start with a `/` which opens no comment: the lexer hands it on alone. */
  predicate LoneSlashAhead(q: seq<int>) {
    |q| >= 2 && q[0] == SLASH && q[1] != SLASH && q[1] != STAR
  }

  /** An ordinary byte is handed on, and the rest is lexed in the same mode. */
  lemma LexOrdinary(c: int, rest: seq<int>, inString: bool)
    requires Ordinary(c, inString)
    ensures Lex([c] + rest, inString) == [c] + Lex(rest, inString)
  {
    assert ([c] + rest)[1..] == rest;
  }

  /** A quote is handed on and flips the string mode for what follows. */
  lemma LexQuote(rest: seq<int>, inString: bool)
    ensures Lex([QUOTE] + rest, inString) == [QUOTE] + Lex(rest, !inString)
  {
    assert ([QUOTE] + rest)[1..] == rest;
  }

  // ------------------------------------------------------------- plain code

  /** Code with no `/` and no `"`: the lexer has nothing to do with it. */
  predicate Plain(code: seq<int>) {
    forall i :: 0 <= i < |code| ==> code[i] != SLASH && code[i] != QUOTE
  }

  lemma {:induction false} PlainCodeVerbatim(code: seq<int>, rest: seq<int>)
    requires Plain(code)
    ensures Lex(code + rest, false) == code + Lex(rest, false)
  {
    if code != [] {
      assert (code + rest)[0] == code[0] && code[0] != SLASH && code[0] != QUOTE;
      assert (code + rest)[1..] == code[1..] + rest;
      assert Plain(code[1..]) by {
        forall i | 0 <= i < |code[1..]| ensures code[1..][i] != SLASH && code[1..][i] != QUOTE {
          assert code[1..][i] == code[i + 1];
        }
      }
      PlainCodeVerbatim(code[1..], rest);
      calc {
        Lex(code + rest, false);
        [code[0]] + Lex(code[1..] + rest, false);
        [code[0]] + (code[1..] + Lex(rest, false));
        { assert code == [code[0]] + code[1..]; }
        code + Lex(rest, false);
      }
    } else {
      assert code + rest == rest;
    }
  }
}
