/** Cutting the patches out of an email body at `---` lines and diff headers. */
module Patches {
  import opened Prelude
  import opened Text
  import opened Sorting

  // ----- the two line patterns

  predicate IsLineStart(s: string, i: nat) {
    i == 0 || (i <= |s| && s[i - 1] == '\n')
  }

  function LineEnd(s: string, i: nat): (j: nat)
    requires i <= |s|
    ensures i <= j <= |s| && (j < |s| ==> s[j] == '\n')
    ensures forall k :: i <= k < j ==> s[k] != '\n'
    decreases |s| - i
  {
    if i == |s| || s[i] == '\n' then i else LineEnd(s, i + 1)
  }

  /** `pat` is in lower case; the letters of `s` may be in either. */
  predicate MatchesIgnoringCase(s: string, pat: string, i: nat) {
    i + |pat| <= |s| && Lower(s[i..i + |pat|]) == pat
  }

  const GIT_HEADER := "diff --git "
  const HG_HEADER := "diff -r "

  /** A line that begins a diff. */
  predicate IsHeaderAt(s: string, i: nat) {
    IsLineStart(s, i) && (MatchesIgnoringCase(s, GIT_HEADER, i) || MatchesIgnoringCase(s, HG_HEADER, i))
  }

  /** A line of three dashes and nothing but white space after them. */
  predicate IsSeparatorAt(s: string, i: nat) {
    IsLineStart(s, i) && MatchesAt(s, "---", i) && AllWhitespace(s[i + 3..LineEnd(s, i + 3)])
  }

  /** What begins a diff, in upper or lower case, and what does not. */
  lemma HeaderForms(rest: string)
    ensures IsHeaderAt("diff --git " + rest, 0) && IsHeaderAt("diff -r " + rest, 0)
    ensures IsHeaderAt("DIFF --GIT " + rest, 0) && IsHeaderAt("Diff -R " + rest, 0)
    ensures !IsHeaderAt("diff -u " + rest, 0) && !IsHeaderAt("> diff --git " + rest, 0)
    ensures !IsHeaderAt("diff --gitk " + rest, 0) && IsHeaderAt("\n" + "diff --git " + rest, 1)
  {
    var git, hg, upper, title := "diff --git " + rest, "diff -r " + rest, "DIFF --GIT " + rest, "Diff -R " + rest;
    assert git[0..11] == "diff --git " && hg[0..8] == "diff -r ";
    assert upper[0..11] == "DIFF --GIT " && title[0..8] == "Diff -R ";
    assert Lower("DIFF --GIT ") == "diff --git " && Lower("Diff -R ") == "diff -r ";
    assert Lower("diff --git ") == "diff --git " && Lower("diff -r ") == "diff -r ";
    var unified, quoted, other, second :=
      "diff -u " + rest, "> diff --git " + rest, "diff --gitk " + rest, "\n" + "diff --git " + rest;
    assert unified[0..8] == "diff -u " && Lower("diff -u ")[6] == 'u';
    assert unified[6] == 'u' && quoted[0] == '>' && other[10] == 'k' && other[6] == '-';
    NoMatch(unified, 11, 6);
    NoMatch(unified, 8, 6);
    NoMatch(quoted, 11, 0);
    NoMatch(quoted, 8, 0);
    NoMatch(other, 11, 10);
    NoMatch(other, 8, 6);
    assert second[1..12] == "diff --git ";
  }

  lemma NoMatch(s: string, n: nat, k: nat)
    requires k < n
    ensures n <= |s| ==> Lower(s[0..n])[k] == LowerChar(s[k])
  {
  }

  /** A separator is three dashes, and nothing visible behind them. */
  lemma SeparatorForms(blank: string, rest: string)
    requires AllWhitespace(blank) && '\n' !in blank && (rest == "" || rest[0] == '\n')
    ensures IsSeparatorAt("---" + blank + rest, 0)
    ensures !IsSeparatorAt("--- a/file" + rest, 0) && !IsSeparatorAt("----" + rest, 0) && !IsSeparatorAt("--" + rest, 0)
  {
    var s := "---" + blank + rest;
    assert s[0..3] == "---";
    LineEndIs(s, 3, 3 + |blank|);
    assert s[3..3 + |blank|] == blank;
    var file, four, two := "--- a/file" + rest, "----" + rest, "--" + rest;
    assert file[4] == 'a' && four[3] == '-';
    assert two[0..2] == "--" && (|two| > 2 ==> two[2] == '\n');
    assert |two| >= 3 ==> two[0..3][2] == '\n';
    LineEndAfter(file, 3, 4);
    LineEndAfter(four, 3, 3);
    assert file[3..LineEnd(file, 3)][1] == 'a';
    assert four[3..LineEnd(four, 3)][0] == '-';
    assert !IsWhitespace('a') && !IsWhitespace('-');
  }

  lemma {:induction false} LineEndIs(s: string, i: nat, j: nat)
    requires i <= j <= |s| && (j < |s| ==> s[j] == '\n')
    requires forall k :: i <= k < j ==> s[k] != '\n'
    ensures LineEnd(s, i) == j
    decreases j - i
  {
    if i < j {
      LineEndIs(s, i + 1, j);
    }
  }

  lemma {:induction false} LineEndAfter(s: string, i: nat, k: nat)
    requires i <= k < |s| && forall m :: i <= m <= k ==> s[m] != '\n'
    ensures LineEnd(s, i) > k
  {
  }

  function HeaderFrom(s: string, i: nat): (found: bool)
    requires i <= |s|
    ensures found <==> exists j :: i <= j && IsHeaderAt(s, j)
    decreases |s| - i
  {
    if IsHeaderAt(s, i) then true
    else if i == |s| then false
    else HeaderFrom(s, i + 1)
  }

  predicate HasHeader(s: string)
    ensures HasHeader(s) <==> exists j: nat :: IsHeaderAt(s, j)
  {
    HeaderFrom(s, 0)
  }

  lemma HeaderFits(s: string, i: nat)
    requires IsHeaderAt(s, i)
    ensures i < |s| && !IsWhitespace(s[i]) && s[i] != '-'
  {
    var pat := if MatchesIgnoringCase(s, GIT_HEADER, i) then GIT_HEADER else HG_HEADER;
    assert LowerChar(s[i]) == Lower(s[i..i + |pat|])[0] == pat[0] == 'd';
  }

  lemma SeparatorFits(s: string, i: nat)
    requires IsSeparatorAt(s, i)
    ensures i < |s| && s[i] == '-'
  {
    assert s[i] == s[i..i + 3][0];
  }

  lemma MatchHasNoBreak(s: string, pat: string, i: nat)
    requires '\n' !in pat && MatchesIgnoringCase(s, pat, i)
    ensures forall j :: i <= j < i + |pat| ==> s[j] != '\n'
  {
    var part := s[i..i + |pat|];
    forall j | i <= j < i + |pat| ensures s[j] != '\n' {
      assert LowerChar(part[j - i]) == Lower(part)[j - i] == pat[j - i];
      assert pat[j - i] in pat;
    }
  }

  /** A pattern without a line break is not torn by a cut at a line start. */
  lemma SliceMatch(s: string, a: nat, b: nat, i: nat, pat: string)
    requires a <= i < b <= |s| && (b == |s| || IsLineStart(s, b)) && '\n' !in pat
    ensures MatchesIgnoringCase(s[a..b], pat, i - a) <==> MatchesIgnoringCase(s, pat, i)
  {
    hide Lower;
    if MatchesIgnoringCase(s, pat, i) {
      MatchHasNoBreak(s, pat, i);
    }
    if i + |pat| <= b {
      SliceOfSlice(s, a, b, i - a, i - a + |pat|);
    }
  }

  /** Looking for headers in a slice between line starts is looking for them in the body. */
  lemma HeaderInSlice(s: string, a: nat, b: nat, i: nat)
    requires a <= i < b <= |s| && IsLineStart(s, a) && (b == |s| || IsLineStart(s, b))
    ensures IsHeaderAt(s[a..b], i - a) <==> IsHeaderAt(s, i)
  {
    hide MatchesIgnoringCase;
    SliceMatch(s, a, b, i, GIT_HEADER);
    SliceMatch(s, a, b, i, HG_HEADER);
  }

  lemma SliceHasHeader(s: string, a: nat, b: nat)
    requires a <= b <= |s| && IsLineStart(s, a) && (b == |s| || IsLineStart(s, b))
    ensures HasHeader(s[a..b]) <==> exists i :: a <= i < b && IsHeaderAt(s, i)
  {
    hide IsHeaderAt;
    if HasHeader(s[a..b]) {
      var j: nat :| IsHeaderAt(s[a..b], j);
      HeaderFits(s[a..b], j);
      HeaderInSlice(s, a, b, a + j);
    }
    if i :| a <= i < b && IsHeaderAt(s, i) {
      HeaderInSlice(s, a, b, i);
    }
  }

  // ----- what a patch is

  /** A stretch of the body, from its first position up to the one after its last. */
  datatype Span = Span(first: nat, end: nat)

  /** A stretch between two neighbouring cuts, the body's ends counting as cuts. */
  ghost predicate IsSection(s: string, c: Span) {
    && c.first <= c.end <= |s|
    && (c.first == 0 || IsSeparatorAt(s, c.first))
    && (c.end == |s| || IsSeparatorAt(s, c.end))
    && forall p :: c.first < p < c.end ==> !IsSeparatorAt(s, p)
  }

  /** The stretch without the white space at its ends. */
  ghost predicate IsTrimmed(s: string, c: Span, t: Span) {
    && c.first <= t.first < t.end <= c.end <= |s|
    && Tight(s[t.first..t.end])
    && AllWhitespace(s[c.first..t.first]) && AllWhitespace(s[t.end..c.end])
  }

  ghost predicate IsPatch(s: string, t: Span) {
    exists c :: IsSection(s, c) && IsTrimmed(s, c, t)
  }

  ghost predicate Within(i: nat, t: Span) {
    t.first <= i < t.end
  }

  /** The patches are trimmed sections in order, no two overlap, and of the sections before `n`
      exactly those with a diff header are there. */
  ghost predicate ArePatchesUpTo(s: string, n: nat, patches: seq<string>, spans: seq<Span>) {
    && n <= |s| && |patches| == |spans|
    && (forall k :: 0 <= k < |spans| ==> IsPatch(s, spans[k]) && HoldsHeader(s, spans[k]))
    && (forall k :: 0 <= k < |spans| ==>
          spans[k].first <= spans[k].end <= n && patches[k] == s[spans[k].first..spans[k].end])
    && (forall k, l :: 0 <= k < l < |spans| ==> spans[k].end <= spans[l].first)
    && (forall i: nat :: i < n && IsHeaderAt(s, i) ==> InSomeSpan(i, spans))
  }

  ghost predicate HoldsHeader(s: string, t: Span) {
    exists i :: Within(i, t) && IsHeaderAt(s, i)
  }

  ghost predicate InSomeSpan(i: nat, spans: seq<Span>) {
    exists k :: 0 <= k < |spans| && Within(i, spans[k])
  }

  ghost predicate ArePatches(s: string, patches: seq<string>, spans: seq<Span>) {
    ArePatchesUpTo(s, |s|, patches, spans)
  }

  // ----- trimming keeps the header lines

  /** Trimming a stretch with something visible in it cuts at its ends only. */
  lemma TrimIsTrimmed(s: string, c: Span, i: nat) returns (t: Span)
    requires c.first <= i < c.end <= |s| && !IsWhitespace(s[i])
    ensures IsTrimmed(s, c, t) && Within(i, t)
    ensures Trim(s[c.first..c.end]) == s[t.first..t.end]
  {
    hide AllWhitespace, Tight, Trim;
    var sec := s[c.first..c.end];
    assert sec[i - c.first] == s[i];
    var a, b := TrimBounds(sec, i - c.first);
    t := Span(c.first + a, c.first + b);
    SliceOfSlice(s, c.first, c.end, 0, a);
    SliceOfSlice(s, c.first, c.end, a, b);
    SliceOfSlice(s, c.first, c.end, b, |sec|);
  }

  /** What is trimmed off a text with something visible in it. */
  lemma TrimBounds(s: string, i: nat) returns (a: nat, b: nat)
    requires i < |s| && !IsWhitespace(s[i])
    ensures a <= i < b <= |s| && Trim(s) == s[a..b] && Tight(s[a..b])
    ensures AllWhitespace(s[0..a]) && AllWhitespace(s[b..|s|])
  {
    hide AllWhitespace, IsWhitespace, LeadingWhitespace, TrimmedEnd;
    a := LeadingWhitespace(s);
    LeadingStopsBefore(s, i);
    var rest := s[a..|s|];
    assert rest == s[a..] && s[..a] == s[0..a];
    var end := TrimmedEnd(rest);
    TrailingStopsAfter(rest, i - a);
    b := a + end;
    SliceOfSlice(s, a, |s|, 0, end);
    SliceOfSlice(s, a, |s|, end, |rest|);
    assert rest[..end] == rest[0..end] && rest[end..] == rest[end..|rest|];
  }

  // ----- sorted positions without repetitions

  ghost predicate Ascending(ns: seq<nat>) {
    forall i, j :: 0 <= i < j < |ns| ==> ns[i] < ns[j]
  }

  predicate NotGreater(a: nat, b: nat) {
    a <= b
  }

  /** `dedup`: of equal neighbours one is kept. */
  function Dedup(ns: seq<nat>): seq<nat> {
    if |ns| > 1 && ns[0] == ns[1] then Dedup(ns[1..])
    else if ns == [] then []
    else [ns[0]] + Dedup(ns[1..])
  }

  lemma {:induction false} DedupAscends(ns: seq<nat>)
    requires Arranged(NotGreater, ns)
    ensures Ascending(Dedup(ns))
    ensures forall m :: m in Dedup(ns) <==> m in ns
  {
    if ns != [] {
      assert ns == [ns[0]] + ns[1..];
      DedupAscends(ns[1..]);
      if |ns| == 1 || ns[0] != ns[1] {
        var t := Dedup(ns[1..]);
        forall j | 0 <= j < |t| ensures ns[0] < t[j] {
          assert t[j] in t;
          var k :| 0 <= k < |ns[1..]| && ns[1..][k] == t[j];
          assert NotGreater(ns[0], ns[1]) && (k == 0 || NotGreater(ns[1], ns[k + 1]));
        }
      }
    }
  }

  /** `sort` followed by `dedup`. */
  function SortDedup(ns: seq<nat>): seq<nat> {
    Dedup(SortBy(NotGreater, ns))
  }

  lemma SortDedupAscends(ns: seq<nat>)
    ensures Ascending(SortDedup(ns))
    ensures forall m :: m in SortDedup(ns) <==> m in ns
  {
    SortByKeeps(NotGreater, ns);
    SortByInOrder(NotGreater, ns, ns);
    DedupAscends(SortBy(NotGreater, ns));
  }

  // ----- the extraction

  /** The starts of all separator lines. */
  method FindSeparators(s: string) returns (positions: seq<nat>)
    ensures Ascending(positions)
    ensures forall i: nat :: i in positions <==> IsSeparatorAt(s, i)
  {
    hide IsSeparatorAt;
    positions := [];
    var i := 0;
    while i < |s|
      invariant i <= |s| && Ascending(positions)
      invariant forall k :: 0 <= k < |positions| ==> positions[k] < i
      invariant forall j: nat :: j in positions <==> j < i && IsSeparatorAt(s, j)
    {
      if IsSeparatorAt(s, i) {
        positions := positions + [i];
      }
      i := i + 1;
    }
    forall j: nat | IsSeparatorAt(s, j) ensures j < i {
      SeparatorFits(s, j);
    }
  }

  /** Where the sections start: at the separators, and at the beginning if a header comes before
      all of them. */
  ghost predicate AreStarts(s: string, starts: seq<nat>) {
    && Ascending(starts)
    && (forall i :: IsSeparatorAt(s, i) ==> i in starts)
    && (forall i :: i in starts ==> i == 0 || IsSeparatorAt(s, i))
    && (forall i :: IsHeaderAt(s, i) ==> starts != [] && starts[0] <= i)
  }

  /** With a header in the body the starts reach from before the first header on. */
  method SectionStarts(s: string) returns (starts: seq<nat>)
    requires HasHeader(s)
    ensures AreStarts(s, starts)
  {
    hide IsHeaderAt, IsSeparatorAt;
    var separators := FindSeparators(s);
    starts := separators;
    SeparatorsFit(s, separators);
    assert separators != [] ==> separators[0] in separators;
    var lead := if separators == [] then |s| else separators[0];
    SliceHasHeader(s, 0, lead);
    if separators == [] || HasHeader(s[..lead]) {
      starts := starts + [0];
    }
    assert s[..lead] == s[0..lead];
    SortDedupAscends(starts);
    ghost var unsorted := starts;
    starts := SortDedup(starts);
    forall i: nat | IsHeaderAt(s, i) ensures starts != [] && starts[0] <= i {
      HeaderFits(s, i);
      HeadIsLeast(starts, if 0 in unsorted then 0 else lead);
    }
  }

  lemma HeadIsLeast(ns: seq<nat>, n: nat)
    requires Ascending(ns) && n in ns
    ensures ns[0] <= n
  {
  }

  lemma SeparatorsFit(s: string, separators: seq<nat>)
    requires forall i: nat :: i in separators ==> IsSeparatorAt(s, i)
    ensures forall i: nat :: i in separators ==> i < |s| && IsLineStart(s, i)
  {
    hide AllWhitespace, LineEnd;
    forall i: nat | i in separators ensures i < |s| && IsLineStart(s, i) {
      SeparatorFits(s, i);
    }
  }

  /** The stretch from the `i`th start up to the next, or up to the end of the body. */
  function SectionAt(s: string, starts: seq<nat>, i: nat): Span
    requires i < |starts|
  {
    Span(starts[i], if i + 1 < |starts| then starts[i + 1] else |s|)
  }

  lemma StartFits(s: string, starts: seq<nat>, i: nat)
    requires AreStarts(s, starts) && (i in starts || i == |s|)
    ensures i <= |s|
  {
    hide IsSeparatorAt;
    if IsSeparatorAt(s, i) {
      SeparatorFits(s, i);
    }
  }

  lemma StartsMakeSections(s: string, starts: seq<nat>, i: nat)
    requires AreStarts(s, starts) && i < |starts|
    ensures IsSection(s, SectionAt(s, starts, i))
  {
    hide IsSeparatorAt;
    var c := SectionAt(s, starts, i);
    assert c.first in starts && (c.end == |s| || c.end in starts);
    StartFits(s, starts, c.first);
    StartFits(s, starts, c.end);
    assert forall k :: 0 <= k < |starts| ==> starts[k] <= c.first || c.end <= starts[k];
  }

  lemma VisibleIsKept(s: string, c: Span, t: Span, i: nat)
    requires IsTrimmed(s, c, t) && c.first <= i < c.end && !IsWhitespace(s[i])
    ensures Within(i, t)
  {
    hide IsWhitespace;
    assert forall k :: c.first <= k < t.first ==> s[k] == s[c.first..t.first][k - c.first];
    assert forall k :: t.end <= k < c.end ==> s[k] == s[t.end..c.end][k - t.end];
  }

  lemma SkipSection(s: string, n: nat, m: nat, patches: seq<string>, spans: seq<Span>)
    requires ArePatchesUpTo(s, n, patches, spans) && n <= m <= |s|
    requires forall i :: n <= i < m ==> !IsHeaderAt(s, i)
    ensures ArePatchesUpTo(s, m, patches, spans)
  {
    hide IsHeaderAt, IsPatch, HoldsHeader, InSomeSpan;
  }

  lemma AddSection(s: string, c: Span, patches: seq<string>, spans: seq<Span>, t: Span)
    requires ArePatchesUpTo(s, c.first, patches, spans)
    requires IsSection(s, c) && IsTrimmed(s, c, t) && HoldsHeader(s, t)
    ensures ArePatchesUpTo(s, c.end, patches + [s[t.first..t.end]], spans + [t])
  {
    hide IsHeaderAt, HoldsHeader, IsSeparatorAt, Tight, AllWhitespace, IsWhitespace;
    var after := spans + [t];
    forall i: nat | i < c.end && IsHeaderAt(s, i) ensures InSomeSpan(i, after) {
      if i < c.first {
        var k :| 0 <= k < |spans| && Within(i, spans[k]);
        assert after[k] == spans[k];
      } else {
        HeaderFits(s, i);
        VisibleIsKept(s, c, t, i);
        assert after[|spans|] == t;
      }
    }
  }

  /** The section's trimmed text is a patch when a header begins in it. */
  lemma SectionPatch(s: string, c: Span) returns (t: Span)
    requires IsSection(s, c) && HasHeader(s[c.first..c.end])
    ensures IsTrimmed(s, c, t) && HoldsHeader(s, t)
    ensures t.first < t.end <= |s| && Trim(s[c.first..c.end]) == s[t.first..t.end]
  {
    hide IsHeaderAt, IsSeparatorAt, Trim, HasHeader;
    SectionCuts(s, c);
    SliceHasHeader(s, c.first, c.end);
    var i :| c.first <= i < c.end && IsHeaderAt(s, i);
    HeaderFits(s, i);
    t := TrimIsTrimmed(s, c, i);
  }

  lemma SectionCuts(s: string, c: Span)
    requires IsSection(s, c)
    ensures c.first <= c.end <= |s|
    ensures IsLineStart(s, c.first) && (c.end == |s| || IsLineStart(s, c.end))
  {
  }

  lemma NoPatchesYet(s: string)
    ensures !HasHeader(s) ==> ArePatchesUpTo(s, |s|, [], [])
  {
    hide IsHeaderAt;
  }

  lemma StartsReachHeaders(s: string, starts: seq<nat>)
    requires AreStarts(s, starts) && HasHeader(s)
    ensures starts != [] && ArePatchesUpTo(s, starts[0], [], [])
  {
    hide IsHeaderAt, IsSeparatorAt;
    assert starts[0] in starts;
    StartFits(s, starts, starts[0]);
  }

  method ExtractPatches(s: string) returns (patches: seq<string>)
    ensures exists spans :: ArePatches(s, patches, spans)
  {
    hide IsHeaderAt, IsSeparatorAt, IsSection, IsTrimmed, ArePatchesUpTo, HoldsHeader, Trim, HasHeader;
    patches := [];
    ghost var spans: seq<Span> := [];
    NoPatchesYet(s);
    if !HasHeader(s) {
      assert ArePatches(s, patches, spans);
      return;
    }
    var starts := SectionStarts(s);
    StartsReachHeaders(s, starts);
    var i := 0;
    while i < |starts|
      invariant i <= |starts|
      invariant ArePatchesUpTo(s, if i < |starts| then starts[i] else |s|, patches, spans)
    {
      var c := SectionAt(s, starts, i);
      StartsMakeSections(s, starts, i);
      SectionCuts(s, c);
      var section := s[c.first..c.end];
      if HasHeader(section) {
        ghost var t := SectionPatch(s, c);
        AddSection(s, c, patches, spans, t);
        var patch := Trim(section);
        if patch != [] {
          patches, spans := patches + [patch], spans + [t];
        }
      } else {
        SliceHasHeader(s, c.first, c.end);
        SkipSection(s, c.first, c.end, patches, spans);
      }
      i := i + 1;
    }
    assert ArePatches(s, patches, spans);
  }

  // ----- what the cutting means for a reader of the body

  /** There are patches exactly when the body has a diff header, and every header line starts
      inside exactly one of them. */
  lemma EveryHeaderInOnePatch(s: string, patches: seq<string>, spans: seq<Span>)
    requires ArePatches(s, patches, spans)
    ensures patches == [] <==> !HasHeader(s)
    ensures forall i: nat | IsHeaderAt(s, i) ::
              exists k :: 0 <= k < |spans| && Within(i, spans[k])
                && forall l :: 0 <= l < |spans| && Within(i, spans[l]) ==> l == k
  {
    hide IsHeaderAt, IsPatch;
    forall i: nat | IsHeaderAt(s, i)
      ensures exists k :: 0 <= k < |spans| && Within(i, spans[k])
                && forall l :: 0 <= l < |spans| && Within(i, spans[l]) ==> l == k
    {
      HeaderFits(s, i);
      var k :| 0 <= k < |spans| && Within(i, spans[k]);
      forall l | 0 <= l < |spans| && Within(i, spans[l]) ensures l == k {
      }
    }
    if spans != [] {
      assert HoldsHeader(s, spans[0]);
    }
  }

  /** Two diffs stay together exactly when no `---` line stands between them. */
  lemma SharePatchIff(s: string, patches: seq<string>, spans: seq<Span>, i: nat, j: nat, k: nat)
    requires ArePatches(s, patches, spans) && k < |spans| && Within(i, spans[k])
    requires i < j && IsHeaderAt(s, i) && IsHeaderAt(s, j)
    ensures Within(j, spans[k]) <==> forall p :: i < p < j ==> !IsSeparatorAt(s, p)
  {
    hide IsHeaderAt, IsSeparatorAt, IsTrimmed, HoldsHeader;
    var c :| IsSection(s, c) && IsTrimmed(s, c, spans[k]);
    TrimmedInside(s, c, spans[k]);
    HeaderFits(s, j);
    if j < c.end {
      VisibleIsKept(s, c, spans[k], j);
    } else if IsSeparatorAt(s, c.end) {
      SeparatorFits(s, c.end);
      assert c.end != j;
    }
  }

  lemma TrimmedInside(s: string, c: Span, t: Span)
    requires IsTrimmed(s, c, t)
    ensures c.first <= t.first < t.end <= c.end <= |s|
  {
  }

  /** The patch around a header is the only trimmed section around it. */
  lemma PatchIsUnique(s: string, t: Span, u: Span, i: nat)
    requires IsPatch(s, t) && IsPatch(s, u) && Within(i, t) && Within(i, u)
    ensures t == u
  {
    hide IsSeparatorAt, IsTrimmed;
    var c :| IsSection(s, c) && IsTrimmed(s, c, t);
    var d :| IsSection(s, d) && IsTrimmed(s, d, u);
    TrimmedInside(s, c, t);
    TrimmedInside(s, d, u);
    assert c == d;
    TrimmedOnce(s, c, t, u);
  }

  lemma TrimmedOnce(s: string, c: Span, t: Span, u: Span)
    requires IsTrimmed(s, c, t) && IsTrimmed(s, c, u)
    ensures t == u
  {
    hide AllWhitespace, IsWhitespace;
    EndsAreVisible(s, t);
    EndsAreVisible(s, u);
    VisibleIsKept(s, c, u, t.first);
    VisibleIsKept(s, c, u, t.end - 1);
    VisibleIsKept(s, c, t, u.first);
    VisibleIsKept(s, c, t, u.end - 1);
  }

  lemma EndsAreVisible(s: string, t: Span)
    requires t.first < t.end <= |s| && Tight(s[t.first..t.end])
    ensures !IsWhitespace(s[t.first]) && !IsWhitespace(s[t.end - 1])
  {
  }

  lemma SameSpan(s: string, p: seq<string>, a: seq<Span>, q: seq<string>, b: seq<Span>, k: nat) returns (l: nat)
    requires ArePatches(s, p, a) && ArePatches(s, q, b) && k < |a|
    ensures l < |b| && a[k] == b[l] && a[k].first < a[k].end
  {
    hide ArePatches, IsPatch;
    var i := HeaderOf(s, p, a, k);
    l := SpanAround(s, q, b, i);
    PatchIsUnique(s, a[k], b[l], i);
  }

  lemma HeaderOf(s: string, p: seq<string>, a: seq<Span>, k: nat) returns (i: nat)
    requires ArePatches(s, p, a) && k < |a|
    ensures Within(i, a[k]) && IsHeaderAt(s, i) && IsPatch(s, a[k])
  {
    hide IsHeaderAt, IsPatch;
    assert HoldsHeader(s, a[k]);
    i :| Within(i, a[k]) && IsHeaderAt(s, i);
  }

  lemma SpanAround(s: string, q: seq<string>, b: seq<Span>, i: nat) returns (l: nat)
    requires ArePatches(s, q, b) && IsHeaderAt(s, i)
    ensures l < |b| && Within(i, b[l]) && IsPatch(s, b[l])
  {
    hide IsHeaderAt, IsPatch, HoldsHeader;
    HeaderFits(s, i);
    l :| 0 <= l < |b| && Within(i, b[l]);
  }

  lemma {:induction false} SameSpans(s: string, p: seq<string>, a: seq<Span>, q: seq<string>, b: seq<Span>, k: nat)
    requires ArePatches(s, p, a) && ArePatches(s, q, b) && k <= |a|
    ensures k <= |b| && a[..k] == b[..k]
  {
    hide IsHeaderAt, IsPatch, HoldsHeader, InSomeSpan;
    if k > 0 {
      SameSpans(s, p, a, q, b, k - 1);
      var l := SameSpan(s, p, a, q, b, k - 1);
      assert forall j :: 0 <= j < k - 1 ==> a[j] == a[..k - 1][j] == b[..k - 1][j] == b[j];
      var m := SameSpan(s, q, b, p, a, k - 1);
      assert a[..k] == a[..k - 1] + [a[k - 1]] && b[..k] == b[..k - 1] + [b[k - 1]];
    }
  }

  /** A body is cut in one way only: what the extraction promises is what it does. */
  lemma PatchesAreUnique(s: string, p: seq<string>, a: seq<Span>, q: seq<string>, b: seq<Span>)
    requires ArePatches(s, p, a) && ArePatches(s, q, b)
    ensures p == q
  {
    hide IsHeaderAt, IsPatch, HoldsHeader, InSomeSpan;
    SameSpans(s, p, a, q, b, |a|);
    SameSpans(s, q, b, p, a, |b|);
    assert a == a[..|a|] && b == b[..|b|];
  }
}
