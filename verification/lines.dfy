/**
 * `readline_without_comments`: one logical line of the comment-free stream into a
 * fixed buffer of `MAX_LINE_LENGTH` characters.
 */
module Lines {
  import opened Chars
  import opened Text
  import opened Scanning

  /** What one call of the line reader makes of a stream. */
  datatype LineRead =
    | EndOfInput                             // EOF before any character
    | Line(text: seq<int>, rest: seq<int>)   // a line and the stream after its terminator
    | Overlong                               // `MAX_LINE_LENGTH - 1` characters or more without a newline

  /**
   * The line at the head of stream `s`: the characters before the first newline
   * or EOF, which ends the last line as a newline would.  The terminator is
   * consumed.  A count of `MAX_LINE_LENGTH - 1` is already fatal, so the longest
   * accepted line has `MAX_LINE_LENGTH - 2` characters.
   */
  function NextLine(s: seq<int>): (r: LineRead)
    ensures r.EndOfInput? <==> s == [] || s[0] == EOF
    ensures r.Line? ==>
              |r.text| < MAX_LINE_LENGTH - 1 && |r.rest| < |s| &&
              NEWLINE !in r.text && EOF !in r.text && r.text <= s
  {
    if s == [] || s[0] == EOF then EndOfInput
    else
      var e := Scan(s, 0, {NEWLINE, EOF});
      if e >= MAX_LINE_LENGTH - 1 then Overlong
      else Line(s[..e], s[Min(e + 1, |s|)..])
  }

  /** A line followed by a newline (or by nothing, or by EOF) is read back with what follows. */
  lemma NextLineOfLine(text: seq<int>, terminator: seq<int>, rest: seq<int>)
    requires NEWLINE !in text && EOF !in text
    requires 0 < |text| < MAX_LINE_LENGTH - 1 || terminator == [NEWLINE]
    requires |text| < MAX_LINE_LENGTH - 1
    requires terminator == [NEWLINE] || (terminator == [EOF] && rest == []) || (terminator == [] && rest == [])
    ensures NextLine(text + terminator + rest) == Line(text, rest)
  {
    var s := text + terminator + rest;
    assert forall k :: 0 <= k < |text| ==> s[k] == text[k];
    ScanIs(s, 0, {NEWLINE, EOF}, |text|);
    assert s[..|text|] == text;
    if terminator == [] {
      assert s == text;
    } else {
      assert s[|text| + 1..] == rest;
    }
  }

  /** A line is refused exactly when `MAX_LINE_LENGTH - 1` characters pass without a terminator. */
  lemma NextLineOverlong(s: seq<int>)
    requires s != [] && s[0] != EOF
    ensures NextLine(s) == Overlong <==>
              |s| >= MAX_LINE_LENGTH - 1 &&
              forall k :: 0 <= k < MAX_LINE_LENGTH - 1 ==> s[k] != NEWLINE && s[k] != EOF
  {
  }

  /** The outcome when the first terminator of `s` (or its end) is at `e`. */
  lemma NextLineAt(s: seq<int>, e: nat)
    requires s != [] && s[0] != EOF && e <= |s|
    requires forall k :: 0 <= k < e ==> s[k] != NEWLINE && s[k] != EOF
    requires e == |s| || s[e] == NEWLINE || s[e] == EOF
    ensures NextLine(s) == if e >= MAX_LINE_LENGTH - 1 then Overlong else Line(s[..e], s[Min(e + 1, |s|)..])
  {
    ScanIs(s, 0, {NEWLINE, EOF}, e);
  }

  /**
   * `readline_without_comments`: EOF before any character gives `Ok(EOF)`;
   * otherwise the line's characters followed by NUL are written to the front of
   * `buffer` (the rest of the buffer keeps its old contents) and their number is
   * returned.  An overlong line is fatal.
   */
  method ReadlineWithoutComments(sc: Scanner, buffer: array<int>) returns (r: Result<int>)
    requires sc.Valid() && buffer.Length == MAX_LINE_LENGTH
    modifies sc, buffer
    ensures sc.Valid()
    ensures NextLine(old(sc.Stream())) == EndOfInput ==>
              r == Ok(EOF) && buffer[0] == NUL && sc.Stream() == old(sc.Stream())[Min(1, |old(sc.Stream())|)..] &&
              forall k :: 1 <= k < buffer.Length ==> buffer[k] == old(buffer[k])
    ensures NextLine(old(sc.Stream())).Line? ==>
              var line := NextLine(old(sc.Stream()));
              r == Ok(|line.text|) && buffer[|line.text|] == NUL &&
              (forall k :: 0 <= k < |line.text| ==> buffer[k] == line.text[k]) &&
              (forall k :: |line.text| < k < buffer.Length ==> buffer[k] == old(buffer[k])) &&
              sc.Stream() == line.rest
    ensures NextLine(old(sc.Stream())) == Overlong ==> r == Err(LineTooLong)
  {
    hide StreamAt;
    ghost var s := sc.Stream();
    ghost var outcome := NextLine(s);
    var count := 0;
    var ch := 0;
    while count < MAX_LINE_LENGTH
      invariant sc.Valid()
      invariant count <= MAX_LINE_LENGTH && count <= |s|
      invariant forall k :: 0 <= k < count ==> s[k] != NEWLINE && s[k] != EOF
      invariant forall k :: 0 <= k < count ==> buffer[k] == s[k]
      invariant forall k :: count <= k < buffer.Length ==> buffer[k] == old(buffer[k])
      invariant sc.Stream() == s[count..]
    {
      ch := sc.ReadcWithoutComments();
      if ch == EOF {
        if count == 0 {
          assert outcome == EndOfInput;
          buffer[count] := NUL;
          return Ok(EOF);
        }
        ch := NEWLINE;
      }
      if ch == NEWLINE {
        NextLineAt(s, count);
        buffer[count] := NUL;
        break;
      } else {
        buffer[count] := ch;
      }
      count := count + 1;
    }
    if count >= MAX_LINE_LENGTH - 1 {
      assert outcome == Overlong;
      return Err(LineTooLong);
    }
    return Ok(count);
  }
}
