/**
 * The stream-level directive helpers: `check_for_string`, `eat_whitespace`,
 * `read_to_end_of_line`, `read_include_filename` and `parse_include_filename`.
 *
 * Each works on the comment-free stream of a `Scanner`; its contract says how much
 * of that stream it consumes and what it reports, in terms of `Text`'s searches.
 * Nothing in `process_file` calls these helpers.
 */
module Directives {
  import opened Chars
  import opened Text
  import opened Lexing
  import opened Scanning

  /**
   * The outcome `read_include_filename` reports on the stream `s`: the name length
   * when a closing quote comes within the token buffer, else the fatal condition.
   */
  function NameOutcome(s: seq<int>): (r: Result<nat>)
    ensures r.Ok? ==> r.value < MAX_TOKEN_LENGTH - 2 && r.value < |s| && s[r.value] == QUOTE
    ensures r.Ok? ==> forall k :: 0 <= k < r.value ==> s[k] != QUOTE && s[k] != EOF
    ensures r == Err(FilenameTooLong) <==>
              |s| >= MAX_TOKEN_LENGTH - 2 && forall k :: 0 <= k < MAX_TOKEN_LENGTH - 2 ==> s[k] != QUOTE && s[k] != EOF
  {
    var q := Scan(s, 0, {QUOTE, EOF});
    if q >= MAX_TOKEN_LENGTH - 2 then Err(FilenameTooLong)
    else if q < |s| && s[q] == QUOTE then Ok(q)
    else Err(UnexpectedEndOfFile)
  }

  /** A quoted name followed by its closing quote is read back exactly. */
  lemma NameOutcomeOfQuotedName(name: seq<int>, rest: seq<int>)
    requires QUOTE !in name && EOF !in name
    requires |name| < MAX_TOKEN_LENGTH - 2
    ensures NameOutcome(name + [QUOTE] + rest) == Ok(|name|)
  {
    var s := name + [QUOTE] + rest;
    assert forall k :: 0 <= k < |name| ==> s[k] == name[k];
    ScanIs(s, 0, {QUOTE, EOF}, |name|);
  }

  /**
   * What is left of stream `s` once its line is consumed: everything up to the first
   * newline or EOF goes, that character included; without one, all of `s` goes.
   */
  function PastLine(s: seq<int>): (r: seq<int>)
    ensures |r| <= |s| && r == s[|s| - |r|..]
    ensures s != [] ==> |r| < |s|
    ensures forall k :: 0 <= k < |s| - |r| - 1 ==> s[k] != NEWLINE && s[k] != EOF
    ensures r != [] ==> s[|s| - |r| - 1] == NEWLINE || s[|s| - |r| - 1] == EOF
  {
    s[Min(Scan(s, 0, {NEWLINE, EOF}) + 1, |s|)..]
  }

  /**
   * What `parse_include_filename` reports and leaves behind once the blanks after
   * `include` are skipped and `mid` is the stream: `<` drops the rest of the line and
   * gives FALSE, `"` reads the name into `token` and gives TRUE, anything else is
   * fatal.
   */
  ghost predicate Opened(mid: seq<int>, r: Result<bool>, token: seq<int>, after: seq<int>) {
    if mid == [] || (mid[0] != LT && mid[0] != QUOTE) then r == Err(MalformedInclude)
    else if mid[0] == LT then r == Ok(false) && after == PastLine(mid[1..])
    else
      match NameOutcome(mid[1..])
      case Ok(n) => r == Ok(true) && n < |token| && token[..n] == mid[1..][..n] && token[n] == NUL && after == mid[1..][n + 1..]
      case Err(e) => r == Err(e)
  }

  /**
   * `check_for_string`: TRUE iff the stream starts with `text`.  It reads one
   * character per matched one and stops after the first mismatch or EOF.
   */
  method CheckForString(sc: Scanner, text: seq<int>) returns (found: bool)
    requires sc.Valid() && IsText(text)
    modifies sc
    ensures sc.Valid()
    ensures found <==> text <= old(sc.Stream())
    ensures found ==> sc.Stream() == old(sc.Stream())[|text|..]
    ensures !found ==>
              var s := old(sc.Stream());
              sc.Stream() == s[Min(CommonPrefix(s, text) + 1, |s|)..]
    ensures found && text != [] && text[|text| - 1] != BACKSLASH ==> sc.nextCh == 0
    ensures old(sc.nextCh) == 0 && text <= old(sc.Pending()) && OrdinaryText(text, old(sc.insideString)) ==>
              found && sc.nextCh == 0 && sc.insideString == old(sc.insideString) &&
              sc.Pending() == old(sc.Pending())[|text|..] && (text != [] ==> sc.pushedCh == 0)
  {
    hide StreamAt, PendingAt, Lex;
    ghost var s := sc.Stream();
    ghost var p := sc.Pending();
    ghost var raw := old(sc.nextCh) == 0 && text <= p && OrdinaryText(text, old(sc.insideString));
    var k := 0;
    while k < |text|
      invariant sc.Valid()
      invariant k <= |text| && k <= |s|
      invariant s[..k] == text[..k]
      invariant sc.Stream() == s[k..]
      invariant k > 0 && sc.nextCh != 0 ==> text[k - 1] == BACKSLASH
      invariant raw ==>
                  sc.nextCh == 0 && sc.insideString == old(sc.insideString) &&
                  sc.Pending() == p[k..] && (k > 0 ==> sc.pushedCh == 0)
    {
      ghost var before := sc.Pending();
      var ch := sc.ReadcWithoutComments();
      if raw {
        assert before[0] == text[k];
        assert sc.Pending() == p[k + 1..];
      }
      if ch == EOF || ch != text[k] {
        CommonPrefixIs(s, text, k);
        PrefixIffCommonPrefix(s, text);
        return false;
      }
      assert s[..k + 1] == text[..k + 1];
      k := k + 1;
    }
    CommonPrefixIs(s, text, k);
    PrefixIffCommonPrefix(s, text);
    return true;
  }

  /**
   * `eat_whitespace`: skip spaces and tabs.  The first other character is put back
   * with `pushc`, that is, into the RAW slot, where the lexer sees it a second time;
   * the byte the slot held before is returned in `dropped`.  What the stream then
   * holds depends on how that character was lexed:
   *  - one the lexer hands on as it is: the stream again starts with it;
   *  - a quote: it is handed out again, but it flips the string mode a second time,
   *    so the raw bytes after it are lexed in the other mode;
   *  - a `/` outside a string: the byte read after it to see whether a comment
   *    starts is lost, and the `/` is lexed afresh with the bytes after that one;
   *  - a backslash inside a string: the escaped character still comes first, and
   *    the backslash is then lexed again, escaping the next raw byte.
   * When the character came out of the escape slot, the raw state is unchanged
   * apart from the slots.
   */
  method EatWhitespace(sc: Scanner) returns (ghost dropped: int)
    requires sc.Valid()
    modifies sc
    ensures sc.Valid()
    ensures
      var s := old(sc.Stream());
      var w := SkipBlanks(s, 0);
      if w == |s| || s[w] == EOF then
        sc.Stream() == s[Min(w + 1, |s|)..]
      else
        sc.pushedCh == s[w]
    ensures
      var s := old(sc.Stream());
      var w := SkipBlanks(s, 0);
      w < |s| && s[w] != EOF && w == 0 && old(sc.nextCh) != 0 ==>
        sc.Now() == old(sc.Now()).(nextCh := 0, pushedCh := s[0]) && dropped == old(sc.pushedCh)
    ensures
      var s := old(sc.Stream());
      var w := SkipBlanks(s, 0);
      var rest := sc.input[sc.pos..];
      w < |s| && s[w] != EOF && (w > 0 || old(sc.nextCh) == 0) ==>
        (Ordinary(s[w], sc.insideString) ==>
           dropped == 0 && sc.nextCh == 0 && sc.Stream() == s[w..]) &&
        (s[w] == QUOTE ==>
           dropped == 0 && sc.nextCh == 0 &&
           Lex(rest, sc.insideString) == s[w + 1..] && sc.Stream() == [QUOTE] + Lex(rest, !sc.insideString)) &&
        (s[w] == SLASH && !sc.insideString ==>
           IsByte(dropped) && sc.nextCh == 0 &&
           Lex([dropped] + rest, false) == s[w + 1..] && sc.Stream() == Lex([SLASH] + rest, false)) &&
        (s[w] == BACKSLASH && sc.insideString ==>
           dropped == 0 && w + 1 < |s| && sc.nextCh == s[w + 1] &&
           Lex(rest, true) == s[w + 2..] && sc.Stream() == [s[w + 1]] + Lex([BACKSLASH] + rest, true))
    ensures
      var p := old(sc.Pending());
      var g := SkipBlanks(p, 0);
      old(sc.nextCh) == 0 && g < |p| && p[g] != EOF && (p[g] == QUOTE || Ordinary(p[g], old(sc.insideString))) ==>
        sc.nextCh == 0 && sc.pushedCh == p[g] && sc.Pending() == p[g..] &&
        sc.insideString == (if p[g] == QUOTE then !old(sc.insideString) else old(sc.insideString))
    ensures
      var p := old(sc.Pending());
      var g := SkipBlanks(p, 0);
      old(sc.nextCh) == 0 && !old(sc.insideString) && g < |p| && LoneSlashAhead(p[g..]) ==>
        dropped == p[g + 1] && sc.nextCh == 0 && !sc.insideString && sc.pushedCh == SLASH &&
        sc.Pending() == [SLASH] + p[g + 2..]
  {
    hide StreamAt, PendingAt, Lex, SkipBlanks;
    ghost var s := sc.Stream();
    ghost var p := sc.Pending();
    ghost var w;
    var ch;
    ch, w := SkipBlankChars(sc);
    dropped := sc.pushedCh;
    if ch != EOF {
      ghost var c := sc.Now();
      if w > 0 || old(sc.nextCh) == 0 {
        PushedBack(sc.input, c, ch);
      }
      if c.pushedCh == 0 {
        PushedPending(sc.input, c, ch);
      } else if c.pushedCh > 0 {
        ReplacedPending(sc.input, c, ch);
      }
      sc.PushC(ch);
      assert sc.Now() == c.(pushedCh := ch);
      assert s[w..] == [s[w]] + s[w + 1..];
      ghost var g := SkipBlanks(p, 0);
      if old(sc.nextCh) == 0 && g < |p| && p[g] != EOF && (p[g] == QUOTE || Ordinary(p[g], old(sc.insideString))) {
        assert p[g..] == [p[g]] + p[g + 1..];
      }
      if old(sc.nextCh) == 0 && !old(sc.insideString) && g < |p| && LoneSlashAhead(p[g..]) {
        assert p[g..][1..][1..] == p[g + 2..];
      }
    }
  }

  /** A byte pushed into a full raw slot replaces the byte that was there. */
  lemma ReplacedPending(input: seq<Byte>, c: Cursor, ch: Byte)
    requires c.pos <= |input| && c.pushedCh > 0
    ensures PendingAt(input, c.(pushedCh := ch)) == [ch] + PendingAt(input, c)[1..]
  {
    assert IsByte(ch) && ([c.pushedCh] + input[c.pos..])[1..] == input[c.pos..];
  }

  /** A byte pushed into the empty raw slot comes before the unread bytes. */
  lemma PushedPending(input: seq<Byte>, c: Cursor, ch: Byte)
    requires c.pos <= |input| && c.pushedCh == 0
    ensures PendingAt(input, c.(pushedCh := ch)) == [ch] + PendingAt(input, c)
  {
    assert IsByte(ch) && [] + input[c.pos..] == input[c.pos..];
  }

  /**
   * The loop of `eat_whitespace`: read until a character other than a space or a
   * tab, which is returned; `w` is its index in the stream.
   */
  method SkipBlankChars(sc: Scanner) returns (ch: int, ghost w: nat)
    requires sc.Valid()
    modifies sc
    ensures sc.Valid() && (ch == EOF || IsByte(ch))
    ensures w == SkipBlanks(old(sc.Stream()), 0) && Advances(old(sc.Stream())[w..], ch, sc.Stream())
    ensures w == 0 && old(sc.nextCh) != 0 ==> ch == old(sc.nextCh) && sc.Now() == old(sc.Now()).(nextCh := 0)
    ensures w > 0 || old(sc.nextCh) == 0 ==>
              (sc.nextCh != 0 <==> ch == BACKSLASH && sc.insideString) &&
              (sc.pushedCh != 0 <==> ch == SLASH && !sc.insideString) && (sc.pushedCh != 0 ==> IsByte(sc.pushedCh))
    ensures
      var p := old(sc.Pending());
      var g := SkipBlanks(p, 0);
      old(sc.nextCh) == 0 && g < |p| && (p[g] == QUOTE || Ordinary(p[g], old(sc.insideString))) ==>
        w == g && ch == p[g] && sc.pushedCh == 0 && sc.nextCh == 0 && sc.Pending() == p[g + 1..] &&
        sc.insideString == (if p[g] == QUOTE then !old(sc.insideString) else old(sc.insideString))
    ensures
      var p := old(sc.Pending());
      var g := SkipBlanks(p, 0);
      old(sc.nextCh) == 0 && !old(sc.insideString) && g < |p| && LoneSlashAhead(p[g..]) ==>
        w == g && ch == SLASH && sc.SlashSteppedFrom(p[g..])
  {
    hide StreamAt, PendingAt, Lex, SkipBlanks;
    ghost var s := sc.Stream();
    ghost var p := sc.Pending();
    ghost var m := sc.insideString;
    ghost var n0 := sc.nextCh;
    w := 0;
    ch := sc.ReadcWithoutComments();
    ghost var ch1 := ch;
    ghost var c1 := sc.Now();
    assert Skipping(sc, s, p, m, n0, 0, ch);
    while ch != EOF && IsBlank(ch)
      invariant Skipping(sc, s, p, m, n0, w, ch)
      invariant w == 0 ==> ch == ch1 && sc.Now() == c1
      decreases |s| - w
    {
      ch := ReadPastBlank(sc, s, p, m, n0, w, ch);
      w := w + 1;
    }
  }

  /**
   * Where the loop of `eat_whitespace` stands once it has read `ch`, the character
   * at index `w` of the stream `s` it started on.  `p` is the raw input it started
   * on, `m` the string flag then and `n0` the escape slot then.  When the raw bytes
   * begin with blanks and then a quote, a byte the lexer passes on or a lone `/`,
   * the state is also known byte by byte.
   */
  ghost predicate Skipping(sc: Scanner, s: seq<int>, p: seq<int>, m: bool, n0: int, w: nat, ch: int)
    reads sc
  {
    var g := SkipBlanks(p, 0);
    sc.Valid() && (ch == EOF || IsByte(ch)) &&
    w <= SkipBlanks(s, 0) && Advances(s[w..], ch, sc.Stream()) &&
    (sc.nextCh != 0 ==> ch == BACKSLASH && sc.insideString) &&
    (w > 0 || n0 == 0 ==>
       (sc.nextCh != 0 <==> ch == BACKSLASH && sc.insideString) &&
       (sc.pushedCh != 0 <==> ch == SLASH && !sc.insideString) && (sc.pushedCh != 0 ==> IsByte(sc.pushedCh))) &&
    (n0 == 0 && g < |p| && (p[g] == QUOTE || Ordinary(p[g], m) || (!m && LoneSlashAhead(p[g..]))) ==>
       w <= g && ch == p[w] &&
       (w < g ==> sc.SteppedFrom(p[w..], m)) &&
       (w == g ==>
          if !m && p[g] == SLASH then sc.SlashSteppedFrom(p[g..])
          else sc.SteppedFrom(p[g..], if p[g] == QUOTE then !m else m)))
  }

  /** One turn of the loop of `eat_whitespace`: the blank `ch` is passed and the next character read. */
  method ReadPastBlank(sc: Scanner, ghost s: seq<int>, ghost p: seq<int>, ghost m: bool, ghost n0: int, ghost w: nat, ch: int)
    returns (next: int)
    requires Skipping(sc, s, p, m, n0, w, ch) && ch != EOF && IsBlank(ch)
    modifies sc
    ensures Skipping(sc, s, p, m, n0, w + 1, next)
  {
    hide StreamAt, PendingAt, Lex, SkipBlanks;
    ghost var g := SkipBlanks(p, 0);
    assert s[w..][1..] == s[w + 1..];
    if n0 == 0 && g < |p| && w < g {
      assert p[w..][1..] == p[w + 1..];
    }
    next := sc.ReadcWithoutComments();
  }

  /**
   * The stream once `ch`, just read from state `c`, is pushed back into the raw
   * slot.  The read left a byte in the raw slot only after a lone `/`, and a byte
   * in the escape slot only after a backslash inside a string.
   */
  lemma PushedBack(input: seq<Byte>, c: Cursor, ch: Byte)
    requires c.pos <= |input|
    requires c.nextCh != 0 <==> ch == BACKSLASH && c.insideString
    requires c.pushedCh != 0 <==> ch == SLASH && !c.insideString
    requires c.pushedCh != 0 ==> IsByte(c.pushedCh)
    ensures
      var rest := input[c.pos..];
      var before := StreamAt(input, c);
      var now := StreamAt(input, c.(pushedCh := ch));
      (Ordinary(ch, c.insideString) ==> c.pushedCh == 0 && c.nextCh == 0 && now == [ch] + before) &&
      (ch == QUOTE ==>
         c.pushedCh == 0 && c.nextCh == 0 && before == Lex(rest, c.insideString) &&
         now == [QUOTE] + Lex(rest, !c.insideString)) &&
      (ch == SLASH && !c.insideString ==>
         c.nextCh == 0 && before == Lex([c.pushedCh] + rest, false) && now == Lex([SLASH] + rest, false)) &&
      (ch == BACKSLASH && c.insideString ==>
         c.pushedCh == 0 && before == [c.nextCh] + Lex(rest, true) && now == [c.nextCh] + Lex([BACKSLASH] + rest, true))
  {
    var rest := input[c.pos..];
    assert IsByte(ch) && [] + rest == rest;
    StreamAtSlots(input, c);
    StreamAtSlots(input, c.(pushedCh := ch));
    if Ordinary(ch, c.insideString) {
      LexOrdinary(ch, rest, c.insideString);
      assert StreamAt(input, c) == Lex(rest, c.insideString);
    } else if ch == QUOTE {
      LexQuote(rest, c.insideString);
    }
  }

  /** `read_to_end_of_line`: consume through the next newline, or to the end of the stream. */
  method ReadToEndOfLine(sc: Scanner)
    requires sc.Valid()
    modifies sc
    ensures sc.Valid()
    ensures sc.Stream() == PastLine(old(sc.Stream()))
  {
    hide StreamAt;
    ghost var s := sc.Stream();
    ghost var e := 0;
    while true
      invariant sc.Valid()
      invariant e <= |s| && sc.Stream() == s[e..]
      invariant forall k :: 0 <= k < e ==> s[k] != NEWLINE && s[k] != EOF
      decreases |s| - e
    {
      var ch := sc.ReadcWithoutComments();
      if ch == EOF || ch == NEWLINE {
        assert Scan(s, 0, {NEWLINE, EOF}) == e by { ScanIs(s, 0, {NEWLINE, EOF}, e); }
        return;
      }
      e := e + 1;
    }
  }

  /**
   * `read_include_filename`: copy characters into `token` up to the closing quote
   * and terminate them with NUL.  EOF first, or no quote within
   * `MAX_TOKEN_LENGTH - 2` characters, is fatal.
   */
  method ReadIncludeFilename(sc: Scanner, token: array<int>) returns (r: Result<nat>)
    requires sc.Valid() && token.Length == MAX_TOKEN_LENGTH
    modifies sc, token
    ensures sc.Valid()
    ensures r == NameOutcome(old(sc.Stream()))
    ensures r.Ok? ==>
              var s := old(sc.Stream());
              token[..r.value] == s[..r.value] && token[r.value] == NUL &&
              sc.Stream() == s[r.value + 1..]
  {
    hide StreamAt;
    ghost var s := sc.Stream();
    var k := 0;
    while k < MAX_TOKEN_LENGTH - 2
      invariant sc.Valid()
      invariant k <= MAX_TOKEN_LENGTH - 2 && k <= |s|
      invariant forall i :: 0 <= i < k ==> s[i] != QUOTE && s[i] != EOF
      invariant token[..k] == s[..k]
      invariant sc.Stream() == s[k..]
    {
      var ch := sc.ReadcWithoutComments();
      if ch == EOF {
        assert Scan(s, 0, {QUOTE, EOF}) == k by { ScanIs(s, 0, {QUOTE, EOF}, k); }
        return Err(UnexpectedEndOfFile);
      } else if ch == QUOTE {
        assert Scan(s, 0, {QUOTE, EOF}) == k by { ScanIs(s, 0, {QUOTE, EOF}, k); }
        token[k] := NUL;
        return Ok(k);
      } else {
        token[k] := ch;
        assert token[..k + 1] == s[..k + 1];
      }
      k := k + 1;
    }
    return Err(FilenameTooLong);
  }

  /**
   * `parse_include_filename`, called after a `#`: match the keyword `include`, skip
   * blanks, then expect `"` (read the name into `token`, TRUE) or `<` (drop the rest
   * of the line, FALSE); anything else, EOF included, is fatal.
   *
   * The character after the blanks is checked as `eat_whitespace` left it, lexed a
   * second time.  A character the lexer hands on as it is reads back unchanged, so
   * the outcome is `Opened` on the stream from it on.  A quote, when the raw bytes
   * hold `include`, blanks and `"`, reads back as a quote, but the bytes after it are
   * lexed in the mode the scanner had before that quote: the name is read as code, and
   * the closing quote opens a string.
   */
  method ParseIncludeFilename(sc: Scanner, token: array<int>) returns (r: Result<bool>)
    requires sc.Valid() && token.Length == MAX_TOKEN_LENGTH
    modifies sc, token
    ensures sc.Valid()
    ensures !(INCLUDE_KEYWORD <= old(sc.Stream())) ==>
              var s := old(sc.Stream());
              r == Ok(false) && sc.Stream() == s[Min(CommonPrefix(s, INCLUDE_KEYWORD) + 1, |s|)..]
    ensures INCLUDE_KEYWORD <= old(sc.Stream()) ==>
              var s := old(sc.Stream())[|INCLUDE_KEYWORD|..];
              var w := SkipBlanks(s, 0);
              (w == |s| || s[w] == EOF ==> Opened(s[Min(w + 1, |s|)..], r, token[..], sc.Stream())) &&
              (w < |s| && s[w] != EOF && s[w] != QUOTE && s[w] != SLASH && s[w] != BACKSLASH ==>
                 Opened(s[w..], r, token[..], sc.Stream()))
    ensures
      var p := old(sc.Pending());
      old(sc.nextCh) == 0 && INCLUDE_KEYWORD <= p ==>
        var g := SkipBlanks(p, |INCLUDE_KEYWORD|);
        g < |p| && p[g] == QUOTE ==>
          Opened([QUOTE] + Lex(p[g + 1..], old(sc.insideString)), r, token[..], sc.Stream())
    ensures
      var p := old(sc.Pending());
      old(sc.nextCh) == 0 && !old(sc.insideString) && INCLUDE_KEYWORD <= p ==>
        var g := SkipBlanks(p, |INCLUDE_KEYWORD|);
        g < |p| && LoneSlashAhead(p[g..]) ==>
          Opened(Lex([SLASH] + p[g + 2..], false), r, token[..], sc.Stream())
  {
    hide StreamAt, Opened, Lex, PendingAt, SkipBlanks;
    ghost var p := sc.Pending();
    ghost var m := sc.insideString;
    ghost var raw := sc.nextCh == 0 && INCLUDE_KEYWORD <= p;
    KeywordIsOrdinary(m);
    var found := CheckForString(sc, INCLUDE_KEYWORD);
    if !found {
      return Ok(false);
    }
    r := ReadAfterKeyword(sc, token);
    if raw {
      var k := |INCLUDE_KEYWORD|;
      var g := SkipBlanks(p, k);
      SkipBlanksFrom(p, k);
      if g < |p| {
        DropTwice(p, k, g);
      }
      if g + 2 <= |p| {
        DropTwice(p, k, g + 2);
      }
    }
  }

  /**
   * What `parse_include_filename` does once `include` is read: `eat_whitespace`,
   * then the opening character and what follows it.  The escape slot is empty
   * there, since the last letter read was `e`.
   */
  method ReadAfterKeyword(sc: Scanner, token: array<int>) returns (r: Result<bool>)
    requires sc.Valid() && sc.nextCh == 0 && token.Length == MAX_TOKEN_LENGTH
    modifies sc, token
    ensures sc.Valid()
    ensures
      var s := old(sc.Stream());
      var w := SkipBlanks(s, 0);
      (w == |s| || s[w] == EOF ==> Opened(s[Min(w + 1, |s|)..], r, token[..], sc.Stream())) &&
      (w < |s| && s[w] != EOF && s[w] != QUOTE && s[w] != SLASH && s[w] != BACKSLASH ==>
         Opened(s[w..], r, token[..], sc.Stream()))
    ensures
      var p := old(sc.Pending());
      var g := SkipBlanks(p, 0);
      g < |p| && p[g] == QUOTE ==>
        Opened([QUOTE] + Lex(p[g + 1..], old(sc.insideString)), r, token[..], sc.Stream())
    ensures
      var p := old(sc.Pending());
      var g := SkipBlanks(p, 0);
      !old(sc.insideString) && g < |p| && LoneSlashAhead(p[g..]) ==>
        Opened(Lex([SLASH] + p[g + 2..], false), r, token[..], sc.Stream())
  {
    hide StreamAt, Opened, Lex, PendingAt;
    ghost var p := sc.Pending();
    ghost var m := sc.insideString;
    ghost var dropped := EatWhitespace(sc);
    ghost var g := SkipBlanks(p, 0);
    if g < |p| && p[g] == QUOTE {
      QuoteInRawSlot(sc.input, sc.Now());
      assert sc.Pending() == [QUOTE] + p[g + 1..];
    } else if !m && g < |p| && LoneSlashAhead(p[g..]) {
      EmptyEscapeSlot(sc.input, sc.Now());
    }
    r := ReadOpening(sc, token);
  }

  /**
   * The tail of `parse_include_filename`: read one character and expect `"` (read
   * the name into `token`, TRUE) or `<` (drop the rest of the line, FALSE).
   */
  method ReadOpening(sc: Scanner, token: array<int>) returns (r: Result<bool>)
    requires sc.Valid() && token.Length == MAX_TOKEN_LENGTH
    modifies sc, token
    ensures sc.Valid()
    ensures Opened(old(sc.Stream()), r, token[..], sc.Stream())
  {
    hide StreamAt;
    var ch := sc.ReadcWithoutComments();
    if ch == QUOTE {
      var n := ReadIncludeFilename(sc, token);
      match n
      case Ok(_) => r := Ok(true);
      case Err(e) => r := Err(e);
    } else if ch == LT {
      ReadToEndOfLine(sc);
      r := Ok(false);
    } else {
      r := Err(MalformedInclude);
    }
  }

  /** The letters of `include` are handed on by the lexer as they are, in either mode. */
  lemma KeywordIsOrdinary(inString: bool)
    ensures OrdinaryText(INCLUDE_KEYWORD, inString)
  {
  }

  /** Dropping `k` elements and then `g - k` more drops `g`. */
  lemma DropTwice(p: seq<int>, k: nat, g: nat)
    requires k <= g <= |p|
    ensures p[k..][g - k..] == p[g..]
  {
  }

  /** With the escape slot empty, the stream is the raw bytes lexed. */
  lemma EmptyEscapeSlot(input: seq<Byte>, c: Cursor)
    requires c.pos <= |input| && c.nextCh == 0
    ensures StreamAt(input, c) == Lex(PendingAt(input, c), c.insideString)
  {
  }

  /** A quote in the raw slot is handed out again and flips the mode back. */
  lemma QuoteInRawSlot(input: seq<Byte>, c: Cursor)
    requires c.pos <= |input| && c.nextCh == 0
    requires PendingAt(input, c) != [] && PendingAt(input, c)[0] == QUOTE
    ensures StreamAt(input, c) == [QUOTE] + Lex(PendingAt(input, c)[1..], !c.insideString)
  {
    var q := PendingAt(input, c);
    assert q == [QUOTE] + q[1..];
    LexQuote(q[1..], c.insideString);
  }

  /**
   * `include`, blanks, and a quoted name with no `/` and no `"` in it, as the first
   * bytes of a file: the name is found and the rest of the file is lexed as the
   * inside of a string.
   */
  lemma QuotedNameAfterKeyword(input: seq<int>, gap: seq<int>, name: seq<int>, tail: seq<int>)
    requires input == INCLUDE_KEYWORD + gap + [QUOTE] + name + [QUOTE] + tail
    requires forall k :: 0 <= k < |gap| ==> IsBlank(gap[k])
    requires Plain(name) && EOF !in name && |name| < MAX_TOKEN_LENGTH - 2
    ensures
      var g := SkipBlanks(input, |INCLUDE_KEYWORD|);
      g == |INCLUDE_KEYWORD| + |gap| && input[g] == QUOTE &&
      var mid := [QUOTE] + Lex(input[g + 1..], false);
      mid[1..] == name + [QUOTE] + Lex(tail, true) &&
      NameOutcome(mid[1..]) == Ok(|name|)
  {
    var g := |INCLUDE_KEYWORD| + |gap|;
    assert forall k :: |INCLUDE_KEYWORD| <= k < g ==> input[k] == gap[k - |INCLUDE_KEYWORD|];
    assert input[g] == QUOTE;
    SkipBlanksIs(input, |INCLUDE_KEYWORD|, g);
    assert input[g + 1..] == name + ([QUOTE] + tail);
    PlainCodeVerbatim(name, [QUOTE] + tail);
    LexQuote(tail, false);
    assert QUOTE !in name by {
      forall k | 0 <= k < |name| ensures name[k] != QUOTE {
      }
    }
    NameOutcomeOfQuotedName(name, Lex(tail, true));
  }

  /**
   * A file that opens with `include "name"`: `parse_include_filename` gives TRUE with
   * the name in the token, and what follows the closing quote is lexed as the inside
   * of a string.
   */
  method QuotedIncludeAtStart(gap: seq<Byte>, name: seq<Byte>, tail: seq<Byte>)
    returns (r: Result<bool>, tok: seq<int>, ghost rest: seq<int>)
    requires forall k :: 0 <= k < |gap| ==> IsBlank(gap[k])
    requires Plain(name) && |name| < MAX_TOKEN_LENGTH - 2
    ensures r == Ok(true) && tok == name + [NUL] && rest == Lex(tail, true)
  {
    hide Lex, StreamAt, PendingAt, SkipBlanks;
    var keyword: seq<Byte> := [105, 110, 99, 108, 117, 100, 101];
    var input := keyword + gap + [QUOTE] + name + [QUOTE] + tail;
    assert keyword == INCLUDE_KEYWORD;
    assert EOF !in name;
    QuotedNameAfterKeyword(input, gap, name, tail);
    var sc := new Scanner(input, false);
    var token := new int[MAX_TOKEN_LENGTH];
    StartOfFile(input, false);
    ghost var mid := [QUOTE] + Lex(input[|INCLUDE_KEYWORD| + |gap| + 1..], false);
    r := ParseIncludeFilename(sc, token);
    assert Opened(mid, r, token[..], sc.Stream());
    assert mid[1..][..|name|] == name && mid[1..][|name| + 1..] == Lex(tail, true);
    tok := token[..|name| + 1];
    assert tok == token[..][..|name|] + [token[|name|]];
    rest := sc.Stream();
  }
}
