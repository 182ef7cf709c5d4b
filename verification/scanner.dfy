/**
 * The raw reader with one-slot pushback and the comment-stripping lexer.
 *
 * In the C program this state lives in the global `pushedCh` and in the statics
 * `inside_string` and `nextCh` of `readc_source_code`; here it is gathered in a
 * `Scanner` object, one per open file.  `pushedCh` and `nextCh` use 0 for "empty".
 */
module Scanning {
  import opened Chars
  import opened Lexing

  /** A snapshot of the scanner's mutable state. */
  datatype Cursor = Cursor(pos: nat, pushedCh: int, nextCh: int, insideString: bool)

  /** The raw bytes `readc` hands out from `c`, with `c.pushedCh`, when non-zero, first. */
  function PendingAt(input: seq<Byte>, c: Cursor): seq<int>
    requires c.pos <= |input|
  {
    (if c.pushedCh > 0 then [c.pushedCh] else []) + input[c.pos..]
  }

  /** The logical characters `readc_without_comments` hands out from state `c`. */
  function StreamAt(input: seq<Byte>, c: Cursor): seq<int>
    requires c.pos <= |input|
  {
    (if c.nextCh != 0 then [c.nextCh] else []) + Lex(PendingAt(input, c), c.insideString)
  }

  /** Before the first read nothing is in a slot: the raw bytes are the whole file. */
  lemma StartOfFile(input: seq<Byte>, inString: bool)
    ensures PendingAt(input, Cursor(0, 0, 0, inString)) == input
  {
    assert [] + input[0..] == input;
  }

  /** Nothing in the logical stream is NUL: `readc_without_comments` can never return it. */
  lemma StreamHasNoNul(input: seq<Byte>, c: Cursor)
    requires c.pos <= |input| && (c.pushedCh <= 0 || IsByte(c.pushedCh))
    ensures forall i :: 0 <= i < |StreamAt(input, c)| ==> StreamAt(input, c)[i] != NUL
  {
    var p := PendingAt(input, c);
    assert IsText(p);
    LexIsLogical(p, c.insideString);
  }

  /** The stream from state `c` spelt out: the escape slot, then the raw slot and the file, lexed. */
  lemma StreamAtSlots(input: seq<Byte>, c: Cursor)
    requires c.pos <= |input|
    ensures StreamAt(input, c) ==
              (if c.nextCh != 0 then [c.nextCh] else []) +
              Lex((if c.pushedCh > 0 then [c.pushedCh] else []) + input[c.pos..], c.insideString)
  {
  }

  /** One read from a stream: its head, or EOF with the stream staying empty. */
  predicate Advances(before: seq<int>, ch: int, after: seq<int>) {
    if before == [] then ch == EOF && after == [] else ch == before[0] && after == before[1..]
  }

  class Scanner {
    /** The bytes of the open file. */
    const input: seq<Byte>
    /** How many bytes `fgetc` has delivered. */
    var pos: nat
    /** The raw pushback slot (`pushedCh`); 0 is empty, EOF may be pushed at the end of file. */
    var pushedCh: int
    /** The byte after a backslash inside a string, returned unlexed by the next read (`nextCh`). */
    var nextCh: int
    /** Whether the lexer is inside a string literal (`inside_string`). */
    var insideString: bool

    ghost predicate Valid()
      reads this
    {
      pos <= |input| &&
      (pushedCh == 0 || IsByte(pushedCh) || (pushedCh == EOF && pos == |input|)) &&
      (nextCh == 0 || IsByte(nextCh) || nextCh == EOF)
    }

    ghost function Now(): Cursor
      reads this
    {
      Cursor(pos, pushedCh, nextCh, insideString)
    }

    /** The raw bytes still to be read, the pushed-back one first. */
    ghost function Pending(): seq<int>
      reads this
      requires Valid()
    {
      PendingAt(input, Now())
    }

    /** The comment-free characters still to be read. */
    ghost function Stream(): seq<int>
      reads this
      requires Valid()
    {
      StreamAt(input, Now())
    }

    /**
     * The state after a read that took the head of the raw bytes `before` and
     * nothing else: both slots are empty and the string flag is `inString`.
     */
    ghost predicate SteppedFrom(before: seq<int>, inString: bool)
      reads this
      requires Valid()
    {
      pushedCh == 0 && nextCh == 0 && insideString == inString && before != [] && Pending() == before[1..]
    }

    /**
     * The state after a read that took a lone `/` off the raw bytes `before`: the
     * byte read after it to look for a comment is back in the raw slot, so only the
     * slash is gone, and the scanner is outside a string.
     */
    ghost predicate SlashSteppedFrom(before: seq<int>)
      reads this
      requires Valid()
    {
      nextCh == 0 && !insideString && |before| >= 2 && pushedCh == before[1] && Pending() == before[1..]
    }

    /**
     * A freshly opened file.  The C statics are never reset between files, so the
     * string flag left by the previous file is a parameter; the two slots are
     * empty whenever the previous file was read to its end.
     */
    constructor (input: seq<Byte>, insideString: bool)
      ensures Valid() && this.input == input
      ensures Now() == Cursor(0, 0, 0, insideString)
      ensures Stream() == Lex(input, insideString)
    {
      this.input := input;
      pos := 0;
      pushedCh := 0;
      nextCh := 0;
      this.insideString := insideString;
      new;
      assert PendingAt(input, Now()) == input;
    }

    /** `readc`: the pushed-back character if there is one, else the next byte of the file. */
    method ReadC() returns (ch: int)
      requires Valid()
      modifies this`pos, this`pushedCh
      ensures Valid() && pushedCh == 0
      ensures ch == EOF || IsByte(ch)
      ensures old(pushedCh) != 0 ==> ch == old(pushedCh) && pos == old(pos)
      ensures old(pushedCh) == 0 && old(pos) < |input| ==> ch == input[old(pos)] && pos == old(pos) + 1
      ensures old(pushedCh) == 0 && old(pos) == |input| ==> ch == EOF && pos == old(pos)
      ensures ch != EOF ==> old(Pending()) == [ch] + Pending()
      ensures ch == EOF ==> pos == |input| && Pending() == [] && old(Pending()) == []
    {
      if pushedCh != 0 {
        ch := pushedCh;
        pushedCh := 0;
      } else if pos < |input| {
        ch := input[pos];
        pos := pos + 1;
      } else {
        ch := EOF;
      }
    }

    /** `pushc`: put one character into the raw slot, replacing what was there. */
    method PushC(ch: int)
      requires Valid()
      requires IsByte(ch) || (ch == EOF && pos == |input|)
      modifies this`pushedCh
      ensures Valid() && pushedCh == ch
      ensures Pending() == (if ch == EOF then [] else [ch]) + input[pos..]
    {
      pushedCh := ch;
    }

    /** `skip_to_end_of_single_line_comment`: consume through the next newline or the end of file. */
    method SkipToEndOfSingleLineComment()
      requires Valid()
      modifies this`pos, this`pushedCh
      ensures Valid() && pushedCh == 0
      ensures Pending() == AfterLineComment(old(Pending()))
    {
      var ch := ReadC();
      while ch != EOF && ch != NEWLINE
        invariant Valid() && pushedCh == 0
        invariant ch == EOF ==> Pending() == []
        invariant AfterLineComment(old(Pending())) ==
                  if ch == EOF || ch == NEWLINE then Pending() else AfterLineComment(Pending())
        decreases |Pending()| + (if ch == EOF then 0 else 1)
      {
        ch := ReadC();
      }
    }

    /**
     * `skip_to_end_of_multi_line_comment`: consume through the next star-slash, or to
     * the end of file.  After a star the following byte is pushed back, so a run of
     * stars before the slash still closes the comment.
     */
    method SkipToEndOfMultiLineComment()
      requires Valid()
      modifies this`pos, this`pushedCh
      ensures Valid() && pushedCh == 0
      ensures Pending() == AfterBlockComment(old(Pending()))
    {
      while true
        invariant Valid()
        invariant AfterBlockComment(Pending()) == AfterBlockComment(old(Pending()))
        decreases |Pending()|
      {
        ghost var before := Pending();
        var ch := ReadC();
        if ch == EOF {
          return;
        }
        if ch == STAR {
          var closed := CloseAfterStar();
          if closed {
            return;
          }
        } else {
          assert AfterBlockComment(Pending()) == AfterBlockComment(before) by {
            AfterBlockCommentStep(before);
            assert Pending() == before[1..];
          }
        }
      }
    }

    /**
     * The part of `skip_to_end_of_multi_line_comment` after a star: a slash closes the
     * comment; any other byte, EOF included, goes back into the raw slot.
     */
    method CloseAfterStar() returns (closed: bool)
      requires Valid() && pushedCh == 0
      modifies this`pos, this`pushedCh
      ensures Valid()
      ensures closed ==> pushedCh == 0 && Pending() == AfterBlockComment([STAR] + old(Pending()))
      ensures !closed ==>
                Pending() == old(Pending()) &&
                AfterBlockComment(Pending()) == AfterBlockComment([STAR] + old(Pending()))
    {
      ghost var before := [STAR] + Pending();
      ghost var rest := Pending();
      var ch := ReadC();
      AfterBlockCommentStep(before);
      if ch == SLASH {
        assert before[2..] == Pending();
        return true;
      }
      PushC(ch);
      assert Pending() == rest == before[1..];
      return false;
    }

    /**
     * `readc_source_code`: the next logical character, or NUL when a block comment
     * was skipped (the stream is then unchanged and the raw input strictly shorter).
     */
    method ReadcSourceCode() returns (ch: int)
      requires Valid()
      modifies this
      ensures Valid()
      ensures |Pending()| <= |old(Pending())|
      ensures ch == NUL || ch == EOF || IsByte(ch)
      ensures ch == NUL ==> Stream() == old(Stream()) && nextCh == 0 && |Pending()| < |old(Pending())|
      ensures ch != NUL ==> Advances(old(Stream()), ch, Stream())
      ensures old(nextCh) != 0 ==> ch == old(nextCh) && Now() == old(Now()).(nextCh := 0)
      ensures nextCh != 0 ==> ch == BACKSLASH && insideString
      ensures old(nextCh) == 0 ==> (nextCh != 0 <==> ch == BACKSLASH && insideString)
      ensures old(nextCh) == 0 ==> (pushedCh != 0 <==> ch == SLASH && !insideString) && (pushedCh != 0 ==> IsByte(pushedCh))
      ensures old(nextCh) == 0 && old(Pending()) != [] && Ordinary(old(Pending())[0], old(insideString)) ==>
                ch == old(Pending())[0] && ch != NUL && SteppedFrom(old(Pending()), old(insideString))
      ensures old(nextCh) == 0 && old(Pending()) != [] && old(Pending())[0] == QUOTE ==>
                ch == QUOTE && SteppedFrom(old(Pending()), !old(insideString))
      ensures old(nextCh) == 0 && !old(insideString) && LoneSlashAhead(old(Pending())) ==>
                ch == SLASH && SlashSteppedFrom(old(Pending()))
    {
      ghost var s0 := Stream();
      if nextCh != 0 {
        ch := nextCh;
        nextCh := 0;
        return;
      }
      ghost var p0 := Pending();
      ch := ReadC();
      if ch == EOF {
        return;
      }
      hide Lex;
      assert p0 == [ch] + Pending();
      ch := LexByte(ch);
    }

    /** The rest of `readc_source_code` once it has read the byte `b` from the raw input. */
    method LexByte(b: int) returns (ch: int)
      requires Valid() && nextCh == 0 && pushedCh == 0 && IsByte(b)
      modifies this
      ensures Valid()
      ensures |Pending()| <= |old(Pending())|
      ensures ch == NUL || ch == EOF || IsByte(ch)
      ensures ch == NUL ==>
                Stream() == Lex([b] + old(Pending()), old(insideString)) && nextCh == 0 &&
                |Pending()| < |old(Pending())|
      ensures ch != NUL ==> Advances(Lex([b] + old(Pending()), old(insideString)), ch, Stream())
      ensures nextCh != 0 <==> ch == BACKSLASH && insideString
      ensures (pushedCh != 0 <==> ch == SLASH && !insideString) && (pushedCh != 0 ==> IsByte(pushedCh))
      ensures Ordinary(b, old(insideString)) ==> ch == b && Now() == old(Now())
      ensures b == QUOTE ==> ch == QUOTE && Now() == old(Now()).(insideString := !old(insideString))
      ensures LoneSlashAhead([b] + old(Pending())) && !old(insideString) ==>
                ch == SLASH && SlashSteppedFrom([b] + old(Pending()))
    {
      ch := b;
      ghost var p0 := [b] + Pending();
      if insideString {
        if ch == BACKSLASH {
          ReadEscaped();
        } else if ch == QUOTE {
          insideString := false;
          assert p0[1..] == Pending();
        } else {
          assert p0[1..] == Pending();
        }
      } else if ch == SLASH {
        ch := ReadAfterSlash();
      } else if ch == QUOTE {
        insideString := true;
        assert p0[1..] == Pending();
      } else {
        assert p0[1..] == Pending();
      }
    }

    /**
     * The part of `readc_source_code` after a backslash inside a string: the next raw
     * character (possibly EOF) is read into `nextCh`, so it escapes comment removal.
     */
    method ReadEscaped()
      requires Valid() && insideString && nextCh == 0
      modifies this
      ensures Valid() && insideString && pushedCh == 0 && nextCh != 0
      ensures |Pending()| < |old(Pending())| || (old(Pending()) == [] && Pending() == [])
      ensures Stream() == Lex([BACKSLASH] + old(Pending()), true)[1..]
    {
      ghost var p0 := [BACKSLASH] + Pending();
      nextCh := ReadC();
      if nextCh == EOF {
        assert p0 == [BACKSLASH];
      } else {
        assert p0[1] == nextCh && p0[2..] == Pending();
      }
    }

    /**
     * The part of `readc_source_code` after a `/` outside a string: a second `/` or a
     * `*` starts a comment, EOF ends the stream, and any other byte is pushed back.
     */
    method ReadAfterSlash() returns (ch: int)
      requires Valid() && !insideString && nextCh == 0
      modifies this
      ensures Valid() && !insideString && nextCh == 0
      ensures ch == NUL || ch == EOF || IsByte(ch)
      ensures |Pending()| <= |old(Pending())|
      ensures ch == NUL ==> Stream() == Lex([SLASH] + old(Pending()), false) && |Pending()| < |old(Pending())|
      ensures ch != NUL ==> Advances(Lex([SLASH] + old(Pending()), false), ch, Stream())
      ensures (pushedCh != 0 <==> ch == SLASH) && (pushedCh != 0 ==> IsByte(pushedCh))
      ensures LoneSlashAhead([SLASH] + old(Pending())) ==>
                ch == SLASH && pushedCh == old(Pending())[0] && Pending() == old(Pending())
    {
      ghost var p0 := [SLASH] + Pending();
      ghost var p1 := Pending();
      ch := ReadC();
      if ch == EOF {
        assert p0 == [SLASH];
      } else if ch == SLASH {
        assert p0[2..] == Pending();
        SkipToEndOfSingleLineComment();
        ch := NEWLINE;
      } else if ch == STAR {
        assert p0[2..] == Pending();
        SkipToEndOfMultiLineComment();
        ch := NUL;
      } else {
        assert p0[1] == ch;
        PushC(ch);
        assert Pending() == p1 == p0[1..];
        ch := SLASH;
      }
    }

    /** `readc_without_comments`: like `fgetc` on the comment-free stream; never returns NUL. */
    method ReadcWithoutComments() returns (ch: int)
      requires Valid()
      modifies this
      ensures Valid()
      ensures ch == EOF || IsByte(ch)
      ensures Advances(old(Stream()), ch, Stream())
      ensures old(nextCh) != 0 ==> ch == old(nextCh) && Now() == old(Now()).(nextCh := 0)
      ensures nextCh != 0 ==> ch == BACKSLASH && insideString
      ensures old(nextCh) == 0 ==> (nextCh != 0 <==> ch == BACKSLASH && insideString)
      ensures old(nextCh) == 0 ==> (pushedCh != 0 <==> ch == SLASH && !insideString) && (pushedCh != 0 ==> IsByte(pushedCh))
      ensures old(nextCh) == 0 && old(Pending()) != [] && Ordinary(old(Pending())[0], old(insideString)) ==>
                ch == old(Pending())[0] && SteppedFrom(old(Pending()), old(insideString))
      ensures old(nextCh) == 0 && old(Pending()) != [] && old(Pending())[0] == QUOTE ==>
                ch == QUOTE && SteppedFrom(old(Pending()), !old(insideString))
      ensures old(nextCh) == 0 && !old(insideString) && LoneSlashAhead(old(Pending())) ==>
                ch == SLASH && SlashSteppedFrom(old(Pending()))
    {
      ch := ReadcSourceCode();
      while ch == NUL
        invariant Valid()
        invariant ch == NUL || ch == EOF || IsByte(ch)
        invariant ch == NUL ==> Stream() == old(Stream()) && old(nextCh) == 0 && nextCh == 0
        invariant ch != NUL ==> Advances(old(Stream()), ch, Stream())
        invariant old(nextCh) != 0 ==> ch == old(nextCh) && Now() == old(Now()).(nextCh := 0)
        invariant nextCh != 0 ==> ch == BACKSLASH && insideString
        invariant old(nextCh) == 0 ==> (nextCh != 0 <==> ch == BACKSLASH && insideString)
        invariant old(nextCh) == 0 ==> (pushedCh != 0 <==> ch == SLASH && !insideString) && (pushedCh != 0 ==> IsByte(pushedCh))
        invariant old(nextCh) == 0 && old(Pending()) != [] && Ordinary(old(Pending())[0], old(insideString)) ==>
                    ch == old(Pending())[0] && ch != NUL && SteppedFrom(old(Pending()), old(insideString))
        invariant old(nextCh) == 0 && old(Pending()) != [] && old(Pending())[0] == QUOTE ==>
                    ch == QUOTE && SteppedFrom(old(Pending()), !old(insideString))
        invariant old(nextCh) == 0 && !old(insideString) && LoneSlashAhead(old(Pending())) ==>
                    ch == SLASH && SlashSteppedFrom(old(Pending()))
        decreases |Pending()| + (if ch == NUL then 1 else 0)
      {
        ch := ReadcSourceCode();
      }
    }
  }
}
