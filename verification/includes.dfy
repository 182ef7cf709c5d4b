/**
 * The line-scanning loop of `process_file`: every logical line is classified by a
 * character walk over the line buffer, and the names of `#include "..."` directives
 * are collected in order.
 */
module Includes {
  import opened Chars
  import opened Text
  import opened Scanning
  import opened Lines

  /** A line as the classifier sees it: no NUL (the terminator) and no EOF. */
  predicate IsLine(line: seq<int>) {
    forall k :: 0 <= k < |line| ==> line[k] != NUL && line[k] != EOF
  }

  /** The closing character that matches an opening `"` or `<`. */
  function Closer(open: int): int {
    if open == QUOTE then QUOTE else GT
  }

  /** Whether the eight characters of `#include` start at index `i` of `line`. */
  predicate DirectiveAt(line: seq<int>, i: nat) {
    i + |INCLUDE_DIRECTIVE| <= |line| && line[i..i + |INCLUDE_DIRECTIVE|] == INCLUDE_DIRECTIVE
  }

  /**
   * The index right after `#include`, when the line starts with it after blanks.
   * Without such a start there is no `#include` that only blanks precede.
   */
  function KeywordEnd(line: seq<int>): (r: Option<nat>)
    ensures r.Some? ==>
              |INCLUDE_DIRECTIVE| <= r.value <= |line| && Blanks(line[..r.value - |INCLUDE_DIRECTIVE|]) &&
              line[r.value - |INCLUDE_DIRECTIVE|..r.value] == INCLUDE_DIRECTIVE
    ensures r.None? ==>
              forall i :: 0 <= i && i + |INCLUDE_DIRECTIVE| <= |line| && Blanks(line[..i]) ==>
                line[i..i + |INCLUDE_DIRECTIVE|] != INCLUDE_DIRECTIVE
  {
    var i := SkipBlanks(line, 0);
    LeadingBlanks(line);
    if DirectiveAt(line, i) then Some(i + |INCLUDE_DIRECTIVE|) else None
  }

  /**
   * The blanks `SkipBlanks` passes at the start of a line are the only run of blanks
   * there that a `#` can follow.
   */
  lemma LeadingBlanks(line: seq<int>)
    ensures Blanks(line[..SkipBlanks(line, 0)])
    ensures forall i :: 0 <= i < |line| && Blanks(line[..i]) && line[i] == HASH ==> i == SkipBlanks(line, 0)
  {
    var w := SkipBlanks(line, 0);
    assert forall k :: 0 <= k < w ==> line[..w][k] == line[k];
    forall i | 0 <= i < |line| && Blanks(line[..i]) && line[i] == HASH
      ensures i == w
    {
      assert forall k :: 0 <= k < i ==> line[..i][k] == line[k];
      SkipBlanksIs(line, 0, i);
    }
  }

  /**
   * What the rest of a directive line, from the first character after the blanks
   * that follow the keyword, contributes: it must open with `"` or `<`, and the
   * name runs up to the matching closer.
   */
  function ClassifyName(rest: seq<int>): (r: Result<Option<seq<int>>>)
    ensures r.Ok? && r.value.Some? ==>
              |r.value.value| + 1 < |rest| && rest[0] == QUOTE && QUOTE !in r.value.value &&
              rest[..|r.value.value| + 2] == [QUOTE] + r.value.value + [QUOTE]
  {
    if rest == [] || (rest[0] != QUOTE && rest[0] != LT) then Err(UnexpectedHeaderQuote)
    else
      var k := Scan(rest, 1, {Closer(rest[0])});
      if k == |rest| then Err(UnterminatedHeaderName)
      else if rest[0] == QUOTE then
        var name := rest[1..k];
        assert rest[..k + 1] == [QUOTE] + name + [QUOTE];
        Ok(Some(name))
      else Ok(None)
  }

  /**
   * What one line contributes: `Some(name)` for `#include "name"`, `None` for any
   * other line (a `<name>` directive included), or the fatal condition.  The
   * directive may be preceded by blanks and its name by blanks.
   */
  function ClassifyLine(line: seq<int>): (r: Result<Option<seq<int>>>)
    ensures r.Ok? && r.value.Some? ==> QUOTE !in r.value.value && |r.value.value| < |line|
  {
    match KeywordEnd(line)
    case None => Ok(None)
    case Some(i) => ClassifyName(line[SkipBlanks(line, i)..])
  }

  predicate Blanks(s: seq<int>) {
    forall k :: 0 <= k < |s| ==> IsBlank(s[k])
  }

  /** `#include "name"` after blanks, with blanks between, records exactly `name`. */
  lemma UserHeaderCollected(lead: seq<int>, gap: seq<int>, name: seq<int>, tail: seq<int>)
    requires Blanks(lead) && Blanks(gap) && QUOTE !in name
    ensures ClassifyLine(lead + INCLUDE_DIRECTIVE + gap + [QUOTE] + name + [QUOTE] + tail) == Ok(Some(name))
  {
    var rest := [QUOTE] + name + ([QUOTE] + tail);
    assert lead + INCLUDE_DIRECTIVE + gap + [QUOTE] + name + [QUOTE] + tail == lead + INCLUDE_DIRECTIVE + gap + rest;
    ClassifyAfterKeyword(lead, gap, rest);
    NameClosed(QUOTE, name, [QUOTE] + tail);
  }

  /** A `#include <name>` directive records nothing. */
  lemma SystemHeaderSkipped(lead: seq<int>, gap: seq<int>, name: seq<int>, tail: seq<int>)
    requires Blanks(lead) && Blanks(gap) && GT !in name
    ensures ClassifyLine(lead + INCLUDE_DIRECTIVE + gap + [LT] + name + [GT] + tail) == Ok(None)
  {
    var rest := [LT] + name + ([GT] + tail);
    assert lead + INCLUDE_DIRECTIVE + gap + [LT] + name + [GT] + tail == lead + INCLUDE_DIRECTIVE + gap + rest;
    ClassifyAfterKeyword(lead, gap, rest);
    NameClosed(LT, name, [GT] + tail);
  }

  /** A directive whose name is not closed on its line is fatal. */
  lemma UnclosedNameIsFatal(lead: seq<int>, gap: seq<int>, open: int, name: seq<int>)
    requires Blanks(lead) && Blanks(gap) && (open == QUOTE || open == LT) && Closer(open) !in name
    ensures ClassifyLine(lead + INCLUDE_DIRECTIVE + gap + [open] + name) == Err(UnterminatedHeaderName)
  {
    var rest := [open] + name;
    assert lead + INCLUDE_DIRECTIVE + gap + [open] + name == lead + INCLUDE_DIRECTIVE + gap + rest;
    ClassifyAfterKeyword(lead, gap, rest);
    assert rest == [open] + name + [];
    NameClosed(open, name, []);
  }

  /**
   * After the keyword and blanks, anything but `"` or `<` is fatal, including a
   * letter that continues the keyword (`#includex`) and the end of the line.
   */
  lemma BadQuoteIsFatal(lead: seq<int>, gap: seq<int>, tail: seq<int>)
    requires Blanks(lead) && Blanks(gap)
    requires tail == [] || (!IsBlank(tail[0]) && tail[0] != QUOTE && tail[0] != LT)
    ensures ClassifyLine(lead + INCLUDE_DIRECTIVE + gap + tail) == Err(UnexpectedHeaderQuote)
  {
    ClassifyAfterKeyword(lead, gap, tail);
  }

  /** The name after an opening character runs to the first matching closer, if there is one. */
  lemma NameClosed(open: int, name: seq<int>, after: seq<int>)
    requires (open == QUOTE || open == LT) && Closer(open) !in name
    requires after == [] || after[0] == Closer(open)
    ensures ClassifyName([open] + name + after) ==
              if after == [] then Err(UnterminatedHeaderName)
              else if open == QUOTE then Ok(Some(name))
              else Ok(None)
  {
    var rest := [open] + name + after;
    var k := 1 + |name|;
    assert forall t :: 1 <= t < k ==> rest[t] == name[t - 1];
    assert after != [] ==> rest[k] == after[0];
    ScanIs(rest, 1, {Closer(open)}, k);
    assert rest[1..k] == name;
  }

  /** A line of blanks, the keyword and blanks is classified by what follows them. */
  lemma ClassifyAfterKeyword(lead: seq<int>, gap: seq<int>, rest: seq<int>)
    requires Blanks(lead) && Blanks(gap)
    requires rest == [] || !IsBlank(rest[0])
    ensures ClassifyLine(lead + INCLUDE_DIRECTIVE + gap + rest) == ClassifyName(rest)
  {
    var j := KeywordAt(lead, gap, rest);
  }

  /** Where the keyword and the blanks after it end on such a line. */
  lemma KeywordAt(lead: seq<int>, gap: seq<int>, rest: seq<int>) returns (j: nat)
    requires Blanks(lead) && Blanks(gap)
    requires rest == [] || !IsBlank(rest[0])
    ensures
      var line := lead + INCLUDE_DIRECTIVE + gap + rest;
      var m := |lead| + |INCLUDE_DIRECTIVE|;
      KeywordEnd(line) == Some(m) && j == SkipBlanks(line, m) == m + |gap| && line[j..] == rest
  {
    var line := lead + INCLUDE_DIRECTIVE + gap + rest;
    var i := |lead|;
    var m := i + |INCLUDE_DIRECTIVE|;
    assert line[i] == HASH;
    SkipBlanksIs(line, 0, i);
    assert line[i..m] == INCLUDE_DIRECTIVE;
    assert forall t :: m <= t < m + |gap| ==> line[t] == gap[t - m];
    j := m + |gap|;
    assert line[j..] == rest;
    SkipBlanksIs(line, m, j);
  }

  /** A line without `#` is never a directive. */
  lemma NoHashNoDirective(line: seq<int>)
    requires HASH !in line
    ensures ClassifyLine(line) == Ok(None)
  {
    var i := SkipBlanks(line, 0);
    if i + |INCLUDE_DIRECTIVE| <= |line| {
      assert line[i..i + |INCLUDE_DIRECTIVE|][0] == line[i] != HASH;
    }
  }

  /**
   * Conversely, a recorded name comes from exactly such a line: blanks, the
   * keyword, blanks, and the name between two quotes.
   */
  lemma CollectedNameShape(line: seq<int>) returns (lead: seq<int>, gap: seq<int>, tail: seq<int>)
    requires ClassifyLine(line).Ok? && ClassifyLine(line).value.Some?
    ensures Blanks(lead) && Blanks(gap)
    ensures line == lead + INCLUDE_DIRECTIVE + gap + [QUOTE] + ClassifyLine(line).value.value + [QUOTE] + tail
  {
    hide KeywordEnd;
    var name := ClassifyLine(line).value.value;
    var m := KeywordEnd(line).value;
    var i := m - |INCLUDE_DIRECTIVE|;
    var j := SkipBlanks(line, m);
    var rest := line[j..];
    assert ClassifyName(rest) == Ok(Some(name));
    lead, gap, tail := line[..i], line[m..j], rest[|name| + 2..];
    assert rest == rest[..|name| + 2] + tail;
    SplitThree(line, i, m, j);
    Regroup(lead, INCLUDE_DIRECTIVE, gap, name, tail);
  }

  /** A sequence is the concatenation of its pieces between three cut points. */
  lemma SplitThree(s: seq<int>, i: nat, m: nat, j: nat)
    requires i <= m <= j <= |s|
    ensures s == s[..i] + s[i..m] + s[m..j] + s[j..]
  {
  }

  /** Regrouping the pieces of a line with a quoted name. */
  lemma Regroup(a: seq<int>, b: seq<int>, c: seq<int>, name: seq<int>, e: seq<int>)
    ensures a + b + c + [QUOTE] + name + [QUOTE] + e == a + b + c + ([QUOTE] + name + [QUOTE] + e)
  {
  }

  /**
   * The character walk of `process_file` over a NUL-terminated line in `buffer`:
   * skip blanks, compare eight characters with `strncmp`, skip blanks, check the
   * opening character and look for the closing one.
   */
  method ScanLine(buffer: array<int>, n: nat) returns (r: Result<Option<seq<int>>>)
    requires n < buffer.Length && buffer[n] == NUL && IsLine(buffer[..n])
    ensures r == ClassifyLine(buffer[..n])
  {
    ghost var line := buffer[..n];
    var p := 0;
    while buffer[p] == SPACE || buffer[p] == TAB
      invariant 0 <= p <= n
      invariant forall k :: 0 <= k < p ==> IsBlank(line[k])
      decreases n - p
    {
      p := p + 1;
    }
    SkipBlanksIs(line, 0, p);
    var matched := StartsWithDirective(buffer, n, p);
    if !matched {
      return Ok(None);
    }
    p := p + |INCLUDE_DIRECTIVE|;
    ghost var m := p;
    while buffer[p] == SPACE || buffer[p] == TAB
      invariant m <= p <= n
      invariant forall k :: m <= k < p ==> IsBlank(line[k])
      decreases n - p
    {
      p := p + 1;
    }
    SkipBlanksIs(line, m, p);
    assert line[p..] == buffer[p..n];
    r := ScanName(buffer, n, p);
  }

  /** The opening character and the search for its closer, from index `j` of the line in `buffer`. */
  method ScanName(buffer: array<int>, n: nat, j: nat) returns (r: Result<Option<seq<int>>>)
    requires j <= n < buffer.Length && buffer[n] == NUL && IsLine(buffer[..n])
    ensures r == ClassifyName(buffer[j..n])
  {
    ghost var rest := buffer[j..n];
    var open := buffer[j];
    var close;
    if open == QUOTE {
      close := QUOTE;
    } else if open == LT {
      close := GT;
    } else {
      assert j < n ==> rest[0] == open;
      return Err(UnexpectedHeaderQuote);
    }
    assert rest[0] == open;
    var p := j + 1;
    // Unlike the source, the search stops at the terminating NUL.
    while p < n && buffer[p] != close
      invariant j + 1 <= p <= n
      invariant forall k :: 1 <= k < p - j ==> rest[k] != close
      decreases n - p
    {
      p := p + 1;
    }
    assert p < n ==> rest[p - j] == buffer[p];
    ScanIs(rest, 1, {close}, p - j);
    if p == n {
      return Err(UnterminatedHeaderName);
    }
    if open == QUOTE {
      assert buffer[j + 1..p] == rest[1..p - j];
      return Ok(Some(buffer[j + 1..p]));
    }
    return Ok(None);
  }

  /** `strncmp("#include", line, 8) == 0` on the NUL-terminated text from `p`. */
  method StartsWithDirective(buffer: array<int>, n: nat, p: nat) returns (b: bool)
    requires p <= n < buffer.Length && buffer[n] == NUL && IsLine(buffer[..n])
    ensures b <==> DirectiveAt(buffer[..n], p)
  {
    var k := 0;
    while k < |INCLUDE_DIRECTIVE|
      invariant 0 <= k <= |INCLUDE_DIRECTIVE| && p + k <= n
      invariant buffer[p..p + k] == INCLUDE_DIRECTIVE[..k]
    {
      if buffer[p + k] != INCLUDE_DIRECTIVE[k] {
        // a NUL at `p + k` differs from every character of the keyword
        assert p + |INCLUDE_DIRECTIVE| <= n ==> buffer[..n][p..p + |INCLUDE_DIRECTIVE|][k] == buffer[p + k];
        return false;
      }
      k := k + 1;
    }
    assert buffer[..n][p..p + k] == buffer[p..p + k];
    return true;
  }

  /**
   * The names `process_file` collects from the rest of stream `s`, after `found`:
   * line by line, in order and with repeats, until the end of input or the first
   * fatal condition.  `include_filenames` holds at most `MAX_INCLUDE_FILES` names.
   */
  function Collect(s: seq<int>, found: seq<seq<int>>): (r: Result<seq<seq<int>>>)
    requires |found| <= MAX_INCLUDE_FILES
    ensures r.Ok? ==> found <= r.value && |r.value| <= MAX_INCLUDE_FILES
    decreases |s|
  {
    match NextLine(s)
    case EndOfInput => Ok(found)
    case Overlong => Err(LineTooLong)
    case Line(text, rest) =>
      match ClassifyLine(text)
      case Err(e) => Err(e)
      case Ok(None) => Collect(rest, found)
      case Ok(Some(name)) =>
        if |found| == MAX_INCLUDE_FILES then Err(TooManyIncludes)
        else Collect(rest, found + [name])
  }

  /** Lines joined into a stream, each ended by a newline. */
  function Join(lines: seq<seq<int>>): (s: seq<int>)
    ensures |s| >= |lines|
  {
    if lines == [] then [] else lines[0] + [NEWLINE] + Join(lines[1..])
  }

  /** A line the reader accepts: no terminator inside and short enough. */
  predicate IsLineText(line: seq<int>) {
    NEWLINE !in line && EOF !in line && |line| < MAX_LINE_LENGTH - 1
  }

  /** The names one line contributes: one for `#include "..."`, none otherwise. */
  function Contribution(line: seq<int>): seq<seq<int>> {
    match ClassifyLine(line)
    case Ok(Some(name)) => [name]
    case _ => []
  }

  /** The names a sequence of lines contributes, one per `#include "..."` line. */
  function Names(lines: seq<seq<int>>): seq<seq<int>> {
    if lines == [] then [] else Contribution(lines[0]) + Names(lines[1..])
  }

  /** Collecting over one well-formed line appends its contribution and goes on after its newline. */
  lemma CollectLine(line: seq<int>, tail: seq<int>, found: seq<seq<int>>)
    requires IsLineText(line) && ClassifyLine(line).Ok?
    requires |found| + |Contribution(line)| <= MAX_INCLUDE_FILES
    ensures Collect(line + [NEWLINE] + tail, found) == Collect(tail, found + Contribution(line))
  {
    NextLineOfLine(line, [NEWLINE], tail);
    if Contribution(line) == [] {
      assert found + [] == found;
    }
  }

  /**
   * Collecting over well-formed lines appends their names to `found`, in the order
   * of the lines and with repeats kept, and then goes on with what follows.
   */
  lemma {:induction false} CollectJoin(lines: seq<seq<int>>, rest: seq<int>, found: seq<seq<int>>)
    requires forall l | l in lines :: IsLineText(l) && ClassifyLine(l).Ok?
    requires |found| + |Names(lines)| <= MAX_INCLUDE_FILES
    ensures Collect(Join(lines) + rest, found) == Collect(rest, found + Names(lines))
  {
    hide Collect, NextLine, ClassifyLine, Contribution;
    if lines == [] {
      assert Join(lines) + rest == rest;
      assert found + Names(lines) == found;
    } else {
      var l, tail := lines[0], Join(lines[1..]) + rest;
      assert lines[0] in lines;
      assert Join(lines) + rest == l + [NEWLINE] + tail;
      var more := Contribution(l);
      assert Names(lines) == more + Names(lines[1..]);
      CollectLine(l, tail, found);
      assert forall x | x in lines[1..] :: x in lines;
      CollectJoin(lines[1..], rest, found + more);
      assert found + more + Names(lines[1..]) == found + Names(lines);
    }
  }

  /** A whole stream of well-formed lines yields exactly their names. */
  lemma CollectAll(lines: seq<seq<int>>)
    requires forall l | l in lines :: IsLineText(l) && ClassifyLine(l).Ok?
    requires |Names(lines)| <= MAX_INCLUDE_FILES
    ensures Collect(Join(lines), []) == Ok(Names(lines))
  {
    hide ClassifyLine;
    hide NextLine;
    CollectJoin(lines, [], []);
    assert Join(lines) + [] == Join(lines);
    assert NextLine([]) == EndOfInput;
    assert [] + Names(lines) == Names(lines);
  }

  /** The first fatal line ends the scan with its failure, whatever follows. */
  lemma FatalLineStops(lines: seq<seq<int>>, bad: seq<int>, rest: seq<int>)
    requires forall l | l in lines :: IsLineText(l) && ClassifyLine(l).Ok?
    requires |Names(lines)| <= MAX_INCLUDE_FILES
    requires IsLineText(bad) && ClassifyLine(bad).Err?
    ensures Collect(Join(lines) + bad + [NEWLINE] + rest, []) == Err(ClassifyLine(bad).error)
  {
    hide ClassifyLine;
    hide NextLine;
    assert Join(lines) + bad + [NEWLINE] + rest == Join(lines) + (bad + [NEWLINE] + rest);
    CollectJoin(lines, bad + [NEWLINE] + rest, []);
    NextLineOfLine(bad, [NEWLINE], rest);
  }

  /**
   * The line loop of `process_file` on an open file: read logical lines until EOF,
   * classify each, and append user header names to `include_filenames`.
   */
  method ProcessFile(sc: Scanner) returns (r: Result<seq<seq<int>>>)
    requires sc.Valid()
    modifies sc
    ensures r == Collect(old(sc.Stream()), [])
  {
    hide StreamAt, NextLine, ClassifyLine;
    var buffer := new int[MAX_LINE_LENGTH];
    var includeFilenames := new seq<int>[MAX_INCLUDE_FILES];
    var count := 0;
    ghost var s := sc.Stream();
    while true
      invariant sc.Valid() && count <= MAX_INCLUDE_FILES
      invariant Collect(s, []) == Collect(sc.Stream(), includeFilenames[..count])
      decreases |sc.Stream()|
    {
      ghost var before := sc.Stream();
      StreamHasNoNul(sc.input, sc.Now());
      var status := ReadlineWithoutComments(sc, buffer);
      if status.Err? {
        return Err(status.error);
      }
      if status.value == EOF {
        break;
      }
      var n := status.value;
      assert buffer[..n] == NextLine(before).text;
      var line := ScanLine(buffer, n);
      match line
      case Err(e) =>
        return Err(e);
      case Ok(None) =>
      case Ok(Some(name)) =>
        if count == MAX_INCLUDE_FILES {
          return Err(TooManyIncludes);
        }
        includeFilenames[count] := name;
        assert includeFilenames[..count + 1] == includeFilenames[..count] + [name];
        count := count + 1;
    }
    return Ok(includeFilenames[..count]);
  }

  // ------------------------------------------------------------ as written

  /**
   * The search for the closing character as `process_file` performs it: `rest` is
   * the line buffer from the opening character on, and the line's terminating NUL
   * is at index `m` of it.  The search does not stop at that NUL but runs on
   * through the bytes earlier, longer lines left behind; `None` means that it runs
   * off the end of the buffer.  When the closer lies beyond the NUL, the recorded
   * name is the C string from the opening quote, which ends at that NUL.
   */
  function NameAsWritten(rest: seq<int>, m: nat): (r: Option<Result<Option<seq<int>>>>)
    requires m < |rest| && rest[m] == NUL
    ensures r.Some? && r.value.Ok? && r.value.value.Some? ==> |r.value.value.value| < m
  {
    if m == 0 || (rest[0] != QUOTE && rest[0] != LT) then Some(Err(UnexpectedHeaderQuote))
    else
      var k := Scan(rest, 1, {Closer(rest[0])});
      if k == |rest| then None
      else if rest[0] == QUOTE then Some(Ok(Some(rest[1..Min(k, m)])))
      else Some(Ok(None))
  }

  /** The classification of the line ending with the NUL at `n` of the whole buffer `buf`, as written. */
  function ClassifyAsWritten(buf: seq<int>, n: nat): (r: Option<Result<Option<seq<int>>>>)
    requires n < |buf| && buf[n] == NUL
    ensures r.Some? && r.value.Ok? && r.value.value.Some? ==> |r.value.value.value| < n
  {
    var line := buf[..n];
    match KeywordEnd(line)
    case None => Some(Ok(None))
    case Some(i) =>
      var j := SkipBlanks(line, i);
      NameAsWritten(buf[j..], n - j)
  }

  /** Where the line holds its closing character, the two name searches agree. */
  lemma NameAsWrittenAgrees(rest: seq<int>, m: nat)
    requires m < |rest| && rest[m] == NUL
    requires ClassifyName(rest[..m]) != Err(UnterminatedHeaderName)
    ensures NameAsWritten(rest, m) == Some(ClassifyName(rest[..m]))
  {
    var name := rest[..m];
    if m > 0 && (rest[0] == QUOTE || rest[0] == LT) {
      assert name[0] == rest[0];
      var k := Scan(name, 1, {Closer(rest[0])});
      assert k < m;
      ScanIs(rest, 1, {Closer(rest[0])}, k);
      assert Min(k, m) == k;
      assert rest[1..k] == name[1..k] by {
        assert forall t :: 1 <= t < k ==> rest[t] == name[t];
      }
    }
  }

  /** Where the line holds its closing character, the two classifications agree. */
  lemma AsWrittenAgreesOnClosedNames(buf: seq<int>, n: nat)
    requires n < |buf| && buf[n] == NUL
    requires ClassifyLine(buf[..n]) != Err(UnterminatedHeaderName)
    ensures ClassifyAsWritten(buf, n) == Some(ClassifyLine(buf[..n]))
  {
    var line := buf[..n];
    match KeywordEnd(line) {
      case None =>
      case Some(i) =>
        var j := SkipBlanks(line, i);
        assert i <= j <= n;
        var tail := buf[j..];
        assert |tail[..n - j]| == n - j == |line[j..]|;
        assert forall t :: 0 <= t < n - j ==> tail[..n - j][t] == buf[j + t] == line[j..][t];
        assert line[j..] == tail[..n - j];
        NameAsWrittenAgrees(buf[j..], n - j);
    }
  }

  /** A quote left after the NUL closes a name that its own line leaves open. */
  lemma StaleQuoteClosesOpenName(name: seq<int>, stale: seq<int>)
    requires QUOTE !in name && QUOTE in stale
    ensures NameAsWritten([QUOTE] + name + [NUL] + stale, 1 + |name|) == Some(Ok(Some(name)))
  {
    var rest := [QUOTE] + name + [NUL] + stale;
    var m := 1 + |name|;
    assert forall t :: 1 <= t < m ==> rest[t] == name[t - 1];
    assert rest[m] == NUL;
    var q :| 0 <= q < |stale| && stale[q] == QUOTE;
    assert rest[m + 1 + q] == QUOTE;
    var k := Scan(rest, 1, {QUOTE});
    assert k < |rest| && k > m;
    assert rest[1..m] == name;
  }

  /**
   * A name left open on its line is not reported: a quote that an earlier, longer
   * line left after the terminating NUL closes it, and the rest of the line is
   * recorded as the name.  The corrected classification rejects the line.
   */
  lemma StaleQuoteClosesName(lead: seq<int>, gap: seq<int>, name: seq<int>, stale: seq<int>)
    requires Blanks(lead) && Blanks(gap) && QUOTE !in name && QUOTE in stale
    ensures
      var line := lead + INCLUDE_DIRECTIVE + gap + [QUOTE] + name;
      ClassifyLine(line) == Err(UnterminatedHeaderName) &&
      ClassifyAsWritten(line + [NUL] + stale, |line|) == Some(Ok(Some(name)))
  {
    var line := lead + INCLUDE_DIRECTIVE + gap + [QUOTE] + name;
    UnclosedNameIsFatal(lead, gap, QUOTE, name);
    var buf := line + [NUL] + stale;
    var n := |line|;
    assert buf[..n] == line;
    assert line == lead + INCLUDE_DIRECTIVE + gap + ([QUOTE] + name);
    var j := KeywordAt(lead, gap, [QUOTE] + name);
    assert buf[j..] == [QUOTE] + name + [NUL] + stale;
    StaleQuoteClosesOpenName(name, stale);
  }
}
