/** Searches over character sequences, shared by the directive helpers and the line classifier. */
module Text {
  import opened Chars

  function Min(a: nat, b: nat): nat {
    if a <= b then a else b
  }

  /** First index at or after `i` whose character is in `stops`, or `|s|` (a bounded `strchr`). */
  function Scan(s: seq<int>, i: nat, stops: set<int>): (j: nat)
    requires i <= |s|
    ensures i <= j <= |s|
    ensures forall k :: i <= k < j ==> s[k] !in stops
    ensures j < |s| ==> s[j] in stops
    decreases |s| - i
  {
    if i == |s| || s[i] in stops then i else Scan(s, i + 1, stops)
  }

  /** First index at or after `i` that is not a space or a tab, or `|s|`. */
  function SkipBlanks(s: seq<int>, i: nat): (j: nat)
    requires i <= |s|
    ensures i <= j <= |s|
    ensures forall k :: i <= k < j ==> IsBlank(s[k])
    ensures j < |s| ==> !IsBlank(s[j])
    decreases |s| - i
  {
    if i == |s| || !IsBlank(s[i]) then i else SkipBlanks(s, i + 1)
  }

  /** Length of the longest common prefix of `a` and `b`. */
  function CommonPrefix(a: seq<int>, b: seq<int>): (k: nat)
    ensures k <= |a| && k <= |b|
    ensures a[..k] == b[..k]
    ensures k < |a| && k < |b| ==> a[k] != b[k]
  {
    if a == [] || b == [] || a[0] != b[0] then 0
    else
      var k := 1 + CommonPrefix(a[1..], b[1..]);
      assert a[..k] == [a[0]] + a[1..][..k - 1];
      assert b[..k] == [b[0]] + b[1..][..k - 1];
      k
  }

  /** The common prefix length is pinned down by agreement up to `k` and a mismatch or an end at `k`. */
  lemma CommonPrefixIs(a: seq<int>, b: seq<int>, k: nat)
    requires k <= |a| && k <= |b| && a[..k] == b[..k]
    requires k == |a| || k == |b| || a[k] != b[k]
    ensures CommonPrefix(a, b) == k
  {
  }

  /** `b` is a prefix of `a` exactly when their common prefix is all of `b`. */
  lemma PrefixIffCommonPrefix(a: seq<int>, b: seq<int>)
    ensures b <= a <==> CommonPrefix(a, b) == |b|
  {
    var k := CommonPrefix(a, b);
    if k == |b| {
      assert b == a[..k];
    }
  }

  /** `SkipBlanks` from `i` is the first index at or after `i` that is not blank. */
  lemma SkipBlanksIs(s: seq<int>, i: nat, w: nat)
    requires i <= w <= |s|
    requires forall k :: i <= k < w ==> IsBlank(s[k])
    requires w == |s| || !IsBlank(s[w])
    ensures SkipBlanks(s, i) == w
    decreases w - i
  {
    if i < w {
      SkipBlanksIs(s, i + 1, w);
    }
  }

  /** Skipping blanks from `i` in `p` is skipping them from the start of `p[i..]`. */
  lemma SkipBlanksFrom(p: seq<int>, i: nat)
    requires i <= |p|
    ensures SkipBlanks(p, i) == i + SkipBlanks(p[i..], 0)
  {
    var j := SkipBlanks(p[i..], 0);
    assert forall k :: i <= k < i + j ==> p[k] == p[i..][k - i];
    SkipBlanksIs(p, i, i + j);
  }

  /** `Scan` from `i` is the first index at or after `i` holding a stop character. */
  lemma ScanIs(s: seq<int>, i: nat, stops: set<int>, e: nat)
    requires i <= e <= |s|
    requires forall k :: i <= k < e ==> s[k] !in stops
    requires e == |s| || s[e] in stops
    ensures Scan(s, i, stops) == e
    decreases e - i
  {
    if i < e {
      ScanIs(s, i + 1, stops, e);
    }
  }
}
