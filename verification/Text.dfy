/** The string operations of the Rust standard library the pipeline relies on. */
module Text {
  import opened Prelude

  /** Unicode White_Space, the class behind `char::is_whitespace` and `str::trim`. */
  predicate IsWhitespace(c: char) {
    var n := c as int;
    || 0x09 <= n <= 0x0D || n == 0x20 || n == 0x85 || n == 0xA0 || n == 0x1680
    || 0x2000 <= n <= 0x200A || n == 0x2028 || n == 0x2029 || n == 0x202F
    || n == 0x205F || n == 0x3000
  }

  predicate AllWhitespace(s: string) {
    forall i :: 0 <= i < |s| ==> IsWhitespace(s[i])
  }

  /** How many leading characters `trim_start` drops. */
  function LeadingWhitespace(s: string): (n: nat)
    ensures n <= |s| && AllWhitespace(s[..n])
    ensures n < |s| ==> !IsWhitespace(s[n])
  {
    if s == [] || !IsWhitespace(s[0]) then 0
    else
      var n := 1 + LeadingWhitespace(s[1..]);
      assert forall i :: 0 < i < n ==> s[i] == s[1..][i - 1];
      n
  }

  /** The end of the text that `trim_end` keeps. */
  function TrimmedEnd(s: string): (n: nat)
    ensures n <= |s| && AllWhitespace(s[n..])
    ensures n > 0 ==> !IsWhitespace(s[n - 1])
  {
    if s == [] || !IsWhitespace(s[|s| - 1]) then |s| else TrimmedEnd(s[..|s| - 1])
  }

  function TrimStart(s: string): string {
    s[LeadingWhitespace(s)..]
  }

  function TrimEnd(s: string): string {
    s[..TrimmedEnd(s)]
  }

  function Trim(s: string): string {
    TrimEnd(TrimStart(s))
  }

  /** A text that starts and ends with something other than white space. */
  predicate Tight(s: string) {
    s != [] && !IsWhitespace(s[0]) && !IsWhitespace(s[|s| - 1])
  }

  lemma {:induction false} LeadingWhitespaceIs(s: string, n: nat)
    requires n <= |s| && AllWhitespace(s[..n])
    requires n < |s| ==> !IsWhitespace(s[n])
    ensures LeadingWhitespace(s) == n
  {
    if n > 0 {
      var t := s[..n];
      assert t[0] == s[0] && s[1..][..n - 1] == t[1..];
      LeadingWhitespaceIs(s[1..], n - 1);
    }
  }

  lemma {:induction false} TrimmedEndIs(s: string, n: nat)
    requires n <= |s| && AllWhitespace(s[n..])
    requires n > 0 ==> !IsWhitespace(s[n - 1])
    ensures TrimmedEnd(s) == n
  {
    if n < |s| {
      assert s[n..][|s| - 1 - n] == s[|s| - 1];
      var t := s[..|s| - 1];
      assert forall i :: 0 <= i < |t| - n ==> t[n..][i] == s[n..][i];
      TrimmedEndIs(t, n);
    }
  }

  /** Trimming removes exactly the white space around a tight core. */
  lemma TrimPadded(left: string, core: string, right: string)
    requires AllWhitespace(left) && AllWhitespace(right) && Tight(core)
    ensures Trim(left + core + right) == core
  {
    var s := left + core + right;
    assert s[..|left|] == left;
    LeadingWhitespaceIs(s, |left|);
    var t := core + right;
    assert s[|left|..] == t;
    assert t[|core|..] == right;
    TrimmedEndIs(t, |core|);
    assert t[..|core|] == core;
  }

  lemma LeadingStopsBefore(s: string, i: nat)
    requires i < |s| && !IsWhitespace(s[i])
    ensures LeadingWhitespace(s) <= i
  {
    var n := LeadingWhitespace(s);
    assert forall k :: 0 <= k < n ==> s[..n][k] == s[k];
  }

  lemma TrailingStopsAfter(s: string, i: nat)
    requires i < |s| && !IsWhitespace(s[i])
    ensures TrimmedEnd(s) > i
  {
    var n := TrimmedEnd(s);
    assert forall k :: n <= k < |s| ==> s[k] == s[n..][k - n];
  }

  lemma TrimEmptyIff(s: string)
    ensures Trim(s) == [] <==> AllWhitespace(s)
  {
    var n := LeadingWhitespace(s);
    if n < |s| {
      LeadingStopsBefore(s, n);
      TrailingStopsAfter(s[n..], 0);
    } else {
      assert s[..n] == s;
    }
  }

  /** What trimming leaves, if anything, starts and ends visibly. */
  lemma TrimTight(s: string)
    ensures Trim(s) == [] || Tight(Trim(s))
  {
    var t := TrimStart(s);
    if t != [] {
      TrailingStopsAfter(t, 0);
    }
  }

  lemma SliceOfSlice(s: string, a: nat, b: nat, x: nat, y: nat)
    requires a <= b <= |s| && x <= y <= b - a
    ensures s[a..b][x..y] == s[a + x..a + y]
  {
    var u, v := s[a..b][x..y], s[a + x..a + y];
    forall k | 0 <= k < |u| ensures u[k] == v[k] {
      assert u[k] == s[a..b][x + k] == s[a + (x + k)];
    }
  }

  predicate MatchesAt(s: string, pat: string, i: int) {
    0 <= i && i + |pat| <= |s| && s[i..i + |pat|] == pat
  }

  ghost predicate Contains(s: string, pat: string) {
    exists i :: MatchesAt(s, pat, i)
  }

  /** The first occurrence of `pat` at or after `from`. */
  function FindFrom(s: string, pat: string, from: nat): (r: Option<nat>)
    requires from <= |s|
    ensures r.Some? ==> from <= r.value && MatchesAt(s, pat, r.value)
    ensures r.Some? ==> forall j :: from <= j < r.value ==> !MatchesAt(s, pat, j)
    ensures r.None? ==> forall j :: from <= j ==> !MatchesAt(s, pat, j)
    decreases |s| - from
  {
    if MatchesAt(s, pat, from) then Some(from)
    else if from == |s| then None
    else FindFrom(s, pat, from + 1)
  }

  function Find(s: string, pat: string): (r: Option<nat>)
    ensures r.Some? ==> MatchesAt(s, pat, r.value)
    ensures r.Some? ==> forall j :: 0 <= j < r.value ==> !MatchesAt(s, pat, j)
    ensures r.None? <==> !Contains(s, pat)
  {
    FindFrom(s, pat, 0)
  }

  /** `str::split_once`: cut at the first occurrence of the separator. */
  function SplitOnce(s: string, sep: string): Option<(string, string)> {
    match Find(s, sep)
    case None => None
    case Some(i) => Some((s[..i], s[i + |sep|..]))
  }

  /** `str::split`: cut at every leftmost, non-overlapping occurrence. */
  function Split(s: string, sep: string): (parts: seq<string>)
    requires sep != []
    ensures parts != []
    decreases |s|
  {
    match Find(s, sep)
    case None => [s]
    case Some(i) => [s[..i]] + Split(s[i + |sep|..], sep)
  }

  /** The first separator in `a + sep + b` is the one written there exactly when none
      starts earlier, that is, none fits inside `a` and all but the last separator character. */
  lemma FirstSeparator(a: string, sep: string, b: string)
    requires sep != []
    ensures Find(a + sep + b, sep) == Some(|a|) <==> !Contains(a + sep[..|sep| - 1], sep)
  {
    var s := a + sep + b;
    var head := a + sep[..|sep| - 1];
    assert s[|a|..|a| + |sep|] == sep;
    assert s[..|head|] == head;
    forall i | 0 <= i < |a| && MatchesAt(s, sep, i) ensures MatchesAt(head, sep, i) {
      assert head[i..i + |sep|] == s[i..i + |sep|];
    }
    forall i | MatchesAt(head, sep, i) ensures i < |a| && MatchesAt(s, sep, i) {
      assert s[i..i + |sep|] == head[i..i + |sep|];
    }
    assert MatchesAt(s, sep, |a|);
  }

  lemma SplitOnceAt(a: string, sep: string, b: string)
    requires sep != [] && !Contains(a + sep[..|sep| - 1], sep)
    ensures SplitOnce(a + sep + b, sep) == Some((a, b))
  {
    FirstSeparator(a, sep, b);
    var s := a + sep + b;
    assert s[..|a|] == a && s[|a| + |sep|..] == b;
  }

  lemma SplitHead(a: string, sep: string, b: string)
    requires sep != [] && !Contains(a + sep[..|sep| - 1], sep)
    ensures Split(a + sep + b, sep) == [a] + Split(b, sep)
  {
    FirstSeparator(a, sep, b);
    var s := a + sep + b;
    assert s[..|a|] == a && s[|a| + |sep|..] == b;
  }

  lemma MatchIsMember(a: string, c: char, i: int)
    requires MatchesAt(a, [c], i)
    ensures c in a
  {
    assert a[i] == a[i..i + 1][0] == c;
  }

  /** A one-character separator that starts early is a member of the text before it. */
  lemma OneCharSeparator(a: string, c: char)
    ensures Contains(a + [c][..0], [c]) ==> c in a
  {
    assert a + [c][..0] == a;
    forall i | MatchesAt(a, [c], i) ensures c in a {
      MatchIsMember(a, c, i);
    }
  }

  /** `to_lowercase` on ASCII letters. */
  function LowerChar(c: char): char {
    if 'A' <= c <= 'Z' then (c as int + 32) as char else c
  }

  function Lower(s: string): string {
    seq(|s|, i requires 0 <= i < |s| => LowerChar(s[i]))
  }

  predicate StartsWith(s: string, prefix: string) {
    |prefix| <= |s| && s[..|prefix|] == prefix
  }

  predicate EndsWith(s: string, suffix: string) {
    |suffix| <= |s| && s[|s| - |suffix|..] == suffix
  }

  /** Byte-wise string order, the order of `Ord for str` and of sorted file names. */
  predicate LexLeq(a: string, b: string) {
    a == [] || (b != [] && (a[0] < b[0] || (a[0] == b[0] && LexLeq(a[1..], b[1..]))))
  }

  lemma LexTotal(a: string, b: string)
    ensures LexLeq(a, b) || LexLeq(b, a)
  {
  }

  lemma {:induction false} LexTransitive(a: string, b: string, c: string)
    requires LexLeq(a, b) && LexLeq(b, c)
    ensures LexLeq(a, c)
  {
    if a != [] && a[0] == b[0] == c[0] {
      LexTransitive(a[1..], b[1..], c[1..]);
    }
  }

  lemma {:induction false} LexAntisymmetric(a: string, b: string)
    requires LexLeq(a, b) && LexLeq(b, a)
    ensures a == b
  {
    if a != [] {
      LexAntisymmetric(a[1..], b[1..]);
      assert a == [a[0]] + a[1..] && b == [b[0]] + b[1..];
    }
  }

  /** For texts of one length the last character decides only between equal stems. */
  lemma {:induction false} LexSnoc(a: string, x: char, b: string, y: char)
    requires |a| == |b|
    ensures LexLeq(a + [x], b + [y]) <==> if a == b then x <= y else LexLeq(a, b)
  {
    if a != [] {
      assert (a + [x])[1..] == a[1..] + [x] && (b + [y])[1..] == b[1..] + [y];
      assert a == [a[0]] + a[1..] && b == [b[0]] + b[1..];
      LexSnoc(a[1..], x, b[1..], y);
    }
  }

  /** A common prefix does not matter for the order. */
  lemma {:induction false} LexPrefix(p: string, a: string, b: string)
    ensures LexLeq(p + a, p + b) <==> LexLeq(a, b)
  {
    if p == [] {
      assert p + a == a && p + b == b;
    } else {
      assert (p + a)[1..] == p[1..] + a && (p + b)[1..] == p[1..] + b;
      LexPrefix(p[1..], a, b);
    }
  }
}
