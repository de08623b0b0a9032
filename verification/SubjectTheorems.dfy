/** A subject has exactly one reading, and nothing but the recognised pieces is taken off it. */
module SubjectTheorems {
  import opened Prelude
  import opened Text
  import opened Decimal
  import opened SubjectTokens
  import opened SubjectTags

  // ----- the untagged subject

  lemma TrimParts(s: string) returns (left: string, right: string)
    ensures s == left + Trim(s) + right && AllWhitespace(left) && AllWhitespace(right)
  {
    hide AllWhitespace, IsWhitespace, LeadingWhitespace, TrimmedEnd;
    var n := LeadingWhitespace(s);
    var m := TrimmedEnd(s[n..]);
    left, right := s[..n], s[n..][m..];
    assert s == s[..n] + s[n..] && s[n..] == s[n..][..m] + s[n..][m..];
  }

  predicate AllOf(s: string, c: char) {
    forall i :: 0 <= i < |s| ==> s[i] == c
  }

  lemma {:induction false} StripParts(s: string, c: char) returns (dropped: string)
    ensures s == dropped + StripLeading(s, c) && AllOf(dropped, c)
  {
    dropped := [];
    if s != [] && s[0] == c {
      var more := StripParts(s[1..], c);
      dropped := [c] + more;
    }
  }

  predicate Droppable(c: char) {
    IsWhitespace(c) || c == '"' || c == ']'
  }

  /** The kept text is what stands after the tags, without white space, quotes and closing brackets
      in front and without white space at the end. */
  lemma TailIsSuffix(rest: string) returns (dropped: string, blank: string)
    ensures rest == dropped + Tail(rest) + blank
    ensures (forall i :: 0 <= i < |dropped| ==> Droppable(dropped[i])) && AllWhitespace(blank)
    ensures TightOrEmpty(Tail(rest))
  {
    hide Trim, StripLeading, IsWhitespace;
    var a, b := TrimParts(rest);
    var quotes := StripParts(Trim(rest), '"');
    var unquoted := StripLeading(Trim(rest), '"');
    var brackets := StripParts(unquoted, ']');
    var stripped := StripLeading(unquoted, ']');
    var c, d := TrimParts(stripped);
    TrimTight(stripped);
    dropped, blank := a + quotes + brackets + c, d + b;
    assert rest == a + (quotes + (brackets + (c + Tail(rest) + d))) + b;
  }

  // ----- the pieces are determined by the text

  lemma PieceHead(p: Piece)
    requires IsPiece(p)
    ensures PieceText(p) != [] && (IsWhitespace(PieceText(p)[0]) <==> p.Blank?)
    ensures p.ColonTag? ==> LowerChar(PieceText(p)[0]) in "rf"
    ensures p.PatchWord? ==> LowerChar(PieceText(p)[0]) == 'p'
    ensures p.Group? ==> PieceText(p)[0] == '['
  {
    hide KindOf, IsWhitespace;
    if p.ColonTag? || p.PatchWord? {
      var word := if p.ColonTag? then p.name else p.word;
      FirstLetter(word);
      LetterNotWhitespace(word[0]);
    }
    BracketNotWhitespace();
  }

  lemma BracketNotWhitespace()
    ensures !IsWhitespace('[') && !IsWhitespace(']') && !IsWhitespace(':')
  {
  }

  /** The recognised names consist of letters only. */
  lemma NameIsLetters(name: string)
    requires KindOf(name) in [Response, Forward]
    ensures name != [] && forall i :: 0 <= i < |name| ==> IsLetter(name[i])
  {
    hide IsVersion, IsSequence;
    var lower := Lower(name);
    assert forall i :: 0 <= i < |lower| ==> 'a' <= lower[i] <= 'z' by {
      assert lower in ["re", "res", "fw", "fwd", "forward"];
    }
    assert forall i :: 0 <= i < |name| ==> LowerChar(name[i]) == lower[i];
  }

  /** A piece and the text it starts leave no choice which piece it is, if a blank reaches up to
      something visible. */
  lemma SamePiece(r: string, p: Piece, q: Piece)
    requires IsPiece(p) && IsPiece(q) && PieceText(p) <= r && PieceText(q) <= r
    requires p.Blank? ==> |p.text| < |r| && !IsWhitespace(r[|p.text|])
    requires q.Blank? ==> |q.text| < |r| && !IsWhitespace(r[|q.text|])
    ensures p == q
  {
    hide KindOf, IsWhitespace, AllWhitespace;
    PieceHead(p);
    PieceHead(q);
    assert PieceText(p)[0] == r[0] == PieceText(q)[0];
    if p.Blank? {
      SameBlank(r, p.text, q.text);
    } else if p.ColonTag? {
      NameIsLetters(p.name);
      NameIsLetters(q.name);
      SameUpToMark(r, p.name, q.name, ':');
    } else if p.Group? {
      SameGroup(r, p.content, q.content);
    } else {
      PatchWordLength(p.word);
      PatchWordLength(q.word);
    }
  }

  lemma PatchWordLength(word: string)
    requires KindOf(word) == Patch
    ensures |word| == 5
  {
    assert |Lower(word)| == |word|;
  }

  lemma SameGroup(r: string, a: string, b: string)
    requires "[" + a + "]" <= r && "[" + b + "]" <= r && ']' !in a && ']' !in b
    ensures a == b
  {
    assert r[1..][..|a| + 1] == a + "]";
    assert r[1..][..|b| + 1] == b + "]";
    SameUpToMark(r[1..], a, b, ']');
  }

  lemma SameBlank(r: string, a: string, b: string)
    requires a <= r && b <= r && AllWhitespace(a) && AllWhitespace(b)
    requires |a| < |r| && !IsWhitespace(r[|a|]) && |b| < |r| && !IsWhitespace(r[|b|])
    ensures a == b
  {
  }

  lemma SameUpToMark(r: string, a: string, b: string, mark: char)
    requires a + [mark] <= r && b + [mark] <= r && mark !in a && mark !in b
    ensures a == b
  {
    assert r[|a|] == (a + [mark])[|a|] && r[|b|] == (b + [mark])[|b|];
    assert forall i :: 0 <= i < |a| ==> r[i] == (a + [mark])[i] == a[i] && a[i] in a;
    assert forall i :: 0 <= i < |b| ==> r[i] == (b + [mark])[i] == b[i] && b[i] in b;
  }

  // ----- the zone is determined by the subject

  /** Where the `k`th piece of a zone starts. */
  function PieceStart(zone: seq<Piece>, k: nat): nat
    requires k <= |zone|
  {
    |ZoneText(zone[..k])|
  }

  lemma {:induction false} PieceAt(s: string, zone: seq<Piece>, k: nat)
    requires ZoneText(zone) <= s && k < |zone|
    ensures PieceStart(zone, k) + |PieceText(zone[k])| == PieceStart(zone, k + 1) <= |s|
    ensures PieceText(zone[k]) == s[PieceStart(zone, k)..PieceStart(zone, k + 1)]
    ensures ZoneText(zone[..k]) <= s
    decreases |zone|
  {
    hide PieceText;
    var shorter := zone[..|zone| - 1];
    assert ZoneText(shorter) <= s;
    if k + 1 == |zone| {
      assert zone[..k + 1] == zone && zone[..k] == shorter;
    } else {
      PieceAt(s, shorter, k);
      assert shorter[..k] == zone[..k] && shorter[..k + 1] == zone[..k + 1];
    }
  }

  /** A blank in a zone reaches up to something visible. */
  lemma BlankIsWhole(s: string, zone: seq<Piece>, k: nat)
    requires IsZone(zone) && ZoneText(zone) <= s && k < |zone| && zone[k].Blank?
    ensures k + 1 < |zone| && PieceStart(zone, k + 1) < |s| && !IsWhitespace(s[PieceStart(zone, k + 1)])
  {
    hide ZoneText, PieceText, IsPiece, IsWhitespace, PieceStart;
    PieceAt(s, zone, k + 1);
    PieceHead(zone[k + 1]);
  }

  ghost predicate InFront(s: string, zone: seq<Piece>) {
    IsZone(zone) && ZoneText(zone) <= s
  }

  /** Two zones in front of one subject agree as far as both reach. */
  lemma {:induction false} SameUpTo(s: string, y: seq<Piece>, z: seq<Piece>, k: nat)
    requires InFront(s, y) && InFront(s, z) && k <= |y| && k <= |z|
    ensures y[..k] == z[..k]
  {
    hide InFront;
    if k > 0 {
      SameUpTo(s, y, z, k - 1);
      StepIsSame(s, y, z, k - 1);
      TakeNext(y, z, k - 1);
    }
  }

  lemma TakeNext(y: seq<Piece>, z: seq<Piece>, k: nat)
    requires k < |y| && k < |z| && y[..k] == z[..k] && y[k] == z[k]
    ensures y[..k + 1] == z[..k + 1]
  {
    assert y[..k + 1] == y[..k] + [y[k]] && z[..k + 1] == z[..k] + [z[k]];
  }

  lemma PieceFits(s: string, zone: seq<Piece>, k: nat, r: string)
    requires IsZone(zone) && ZoneText(zone) <= s && k < |zone|
    requires PieceStart(zone, k) <= |s| && r == s[PieceStart(zone, k)..]
    ensures IsPiece(zone[k]) && PieceText(zone[k]) <= r
    ensures zone[k].Blank? ==> |zone[k].text| < |r| && !IsWhitespace(r[|zone[k].text|])
  {
    hide ZoneText, IsWhitespace, PieceStart, IsPiece;
    PieceAt(s, zone, k);
    if zone[k].Blank? {
      BlankIsWhole(s, zone, k);
    }
  }

  lemma StepIsSame(s: string, y: seq<Piece>, z: seq<Piece>, k: nat)
    requires InFront(s, y) && InFront(s, z)
    requires k < |y| && k < |z| && y[..k] == z[..k]
    ensures y[k] == z[k]
  {
    hide ZoneText, IsWhitespace, IsPiece, IsZone, PieceText;
    PieceAt(s, y, k);
    var r := s[PieceStart(y, k)..];
    PieceFits(s, y, k, r);
    PieceFits(s, z, k, r);
    SamePiece(r, y[k], z[k]);
  }

  lemma {:induction false} ColonPartReaches(zone: seq<Piece>, k: nat)
    requires k < |zone| && zone[k].ColonTag?
    ensures ZoneText(zone[..k + 1]) <= ColonPart(zone)
  {
    hide PieceText;
    var shorter := zone[..|zone| - 1];
    if k + 1 == |zone| {
      assert zone[..k + 1] == zone;
    } else {
      assert shorter[..k + 1] == zone[..k + 1];
      if Last(zone).ColonTag? {
        PrefixUpTo(zone, k + 1);
      } else {
        ColonPartReaches(shorter, k);
      }
    }
  }

  lemma {:induction false} PrefixUpTo(zone: seq<Piece>, k: nat)
    requires k <= |zone|
    ensures ZoneText(zone[..k]) <= ZoneText(zone)
  {
    hide PieceText;
    if k == |zone| {
      assert zone[..k] == zone;
    } else {
      var shorter := zone[..|zone| - 1];
      assert shorter[..k] == zone[..k];
      PrefixUpTo(shorter, k);
    }
  }

  // ----- nothing of the zone can be missing

  lemma NameEndIs(s: string, i: nat, j: nat)
    requires i <= j < |s| && s[j] == ':' && forall k :: i <= k < j ==> IsLetter(s[k])
    ensures NameEnd(s, i) == j
    decreases j - i
  {
  }

  /** A colon tag of the zone is one the scanner sees. */
  lemma TagIsSeen(front: string, from: nat, i: nat, name: string)
    requires from <= i && i + |name| < |front| && front[i..i + |name|] == name && front[i + |name|] == ':'
    requires KindOf(name) in [Response, Forward] && AllWhitespace(front[from..i])
    requires i == 0 || !IsWordChar(front[i - 1])
    ensures ColonTagFollows(front, from, i)
  {
    hide KindOf, AllWhitespace, NameEnd;
    NameIsLetters(name);
    assert forall k :: i <= k < i + |name| ==> front[k] == name[k - i];
    NameEndIs(front, i, i + |name|);
  }

  /** The last character of a piece, other than the word patch, does not go with what follows it. */
  lemma PieceEnd(p: Piece)
    requires IsPiece(p) && !p.PatchWord?
    ensures PieceText(p) != [] && !IsWordChar(Last(PieceText(p)))
  {
    hide KindOf;
  }

  lemma BeforePiece(s: string, zone: seq<Piece>, k: nat)
    requires IsZone(zone) && ZoneText(zone) <= s && k < |zone|
    requires k > 0 ==> !zone[k - 1].PatchWord?
    ensures PieceStart(zone, k) == 0 || (PieceStart(zone, k) <= |s| && !IsWordChar(s[PieceStart(zone, k) - 1]))
  {
    hide ZoneText, IsPiece, PieceText, IsWordChar, PieceStart;
    if k > 0 {
      PieceAt(s, zone, k - 1);
      PieceEnd(zone[k - 1]);
      assert s[PieceStart(zone, k) - 1] == Last(PieceText(zone[k - 1]));
    } else {
      PieceStartZero(zone);
    }
  }

  lemma PieceStartZero(zone: seq<Piece>)
    ensures PieceStart(zone, 0) == 0
  {
    EmptyZone();
    assert zone[..0] == [];
  }

  /** The next piece after the first `k` that is not a blank. */
  lemma NextVisible(s: string, zone: seq<Piece>, k: nat) returns (j: nat)
    requires IsZone(zone) && ZoneText(zone) <= s && k < |zone| && (k > 0 ==> !zone[k - 1].Blank?)
    ensures k <= j < |zone| && !zone[j].Blank? && (j == k || (j == k + 1 && zone[k].Blank?))
    ensures PieceStart(zone, k) <= PieceStart(zone, j) <= |s|
      && AllWhitespace(s[PieceStart(zone, k)..PieceStart(zone, j)])
    ensures PieceStart(zone, j) == 0 || !IsWordChar(s[PieceStart(zone, j) - 1])
  {
    hide ZoneText, IsWordChar, IsWhitespace, PieceStart, BlanksApart;
    PieceAt(s, zone, k);
    if zone[k].Blank? {
      j := k + 1;
      BlankIsWhole(s, zone, k);
      BlankIsFollowed(zone, k);
    } else {
      j := k;
    }
    PieceHead(zone[k]);
    BeforePiece(s, zone, j);
  }

  lemma BlankIsFollowed(zone: seq<Piece>, k: nat)
    requires IsZone(zone) && k < |zone| && zone[k].Blank?
    ensures k + 1 < |zone| && !zone[k + 1].Blank?
  {
  }

  lemma GroupIsSeen(s: string, zone: seq<Piece>, from: nat, j: nat)
    requires IsZone(zone) && ZoneText(zone) <= s && j < |zone| && zone[j].Group?
    requires from <= PieceStart(zone, j) <= |s| && AllWhitespace(s[from..PieceStart(zone, j)])
    requires PieceStart(zone, j) == 0 || !IsWordChar(s[PieceStart(zone, j) - 1])
    ensures GroupFollows(s, from, PieceStart(zone, j))
  {
    hide ZoneText, IsZone, PieceStart, AllWhitespace;
    PieceAt(s, zone, j);
    var i, end := PieceStart(zone, j), PieceStart(zone, j + 1);
    assert s[i] == PieceText(zone[j])[0] == '[';
    assert s[end - 1] == Last(PieceText(zone[j])) == ']';
  }

  /** Before a colon tag everything is colon tags. */
  lemma ColonPartBefore(zone: seq<Piece>, k: nat, j: nat)
    requires IsZone(zone) && k <= j < |zone| && zone[j].ColonTag? && (k > 0 ==> !zone[k - 1].Blank?)
    ensures ColonPart(zone[..k]) == ZoneText(zone[..k])
  {
    hide ZoneText, IsPiece, BlanksApart;
    EmptyZone();
  }

  lemma ColonIsSeen(s: string, zone: seq<Piece>, k: nat, j: nat)
    requires IsTagZone(s, zone) && k <= j < |zone| && zone[j].ColonTag? && (k > 0 ==> !zone[k - 1].Blank?)
    requires PieceStart(zone, k) <= PieceStart(zone, j) <= |s|
      && AllWhitespace(s[PieceStart(zone, k)..PieceStart(zone, j)])
    requires PieceStart(zone, j) == 0 || !IsWordChar(s[PieceStart(zone, j) - 1])
    ensures ColonTagFollows(FrontOf(s), |ColonPart(zone[..k])|, PieceStart(zone, j))
  {
    hide ZoneText, ColonPart, AllWhitespace, KindOf, FrontOf, IsWordChar, ColonTagFollows, GroupFollows, PatchInFront;
    var front, name := FrontOf(s), zone[j].name;
    var from, i, end := PieceStart(zone, k), PieceStart(zone, j), PieceStart(zone, j + 1);
    ColonPartBefore(zone, k, j);
    ColonPartReaches(zone, j);
    PieceAt(s, zone, j);
    FrontSlices(s, end);
    assert s[i..end] == name + ":";
    NameAndColon(s, i, end, name);
    TagIsSeen(front, from, i, name);
  }

  lemma NameAndColon(s: string, i: nat, end: nat, name: string)
    requires i <= end <= |s| && s[i..end] == name + ":"
    ensures end == i + |name| + 1 && s[i..i + |name|] == name && s[i + |name|] == ':'
  {
    assert |s[i..end]| == |name| + 1;
    SliceOfSlice(s, i, end, 0, |name|);
    assert s[i + |name|] == s[i..end][|name|];
  }

  lemma FrontSlices(s: string, end: nat)
    requires end <= |FrontOf(s)|
    ensures FrontOf(s) <= s
    ensures forall i, j :: 0 <= i <= j <= end ==> FrontOf(s)[i..j] == s[i..j]
    ensures forall i :: 0 <= i < end ==> FrontOf(s)[i] == s[i]
  {
    hide FindChar;
  }

  /** Whatever comes next in a zone is a tag that follows in the text. */
  lemma NothingMissing(s: string, y: seq<Piece>, z: seq<Piece>)
    requires IsTagZone(s, y) && IsTagZone(s, z) && |y| <= |z| && y == z[..|y|]
    ensures y == z
  {
    hide ZoneText, ColonPart, AllWhitespace, FrontOf, IsWordChar, ColonTagFollows, GroupFollows, PatchInFront,
      PieceStart;
    if |y| < |z| {
      var k := |y|;
      var j := NextVisible(s, z, k);
      PieceStartIs(z, k);
      if z[j].Group? {
        GroupIsSeen(s, z, PieceStart(z, k), j);
      } else if z[j].ColonTag? {
        ColonIsSeen(s, z, k, j);
      } else {
        PatchIsFirst(z, j);
      }
      assert false;
    } else {
      assert z[..|y|] == z;
    }
  }

  lemma PieceStartIs(zone: seq<Piece>, k: nat)
    requires k <= |zone|
    ensures PieceStart(zone, k) == |ZoneText(zone[..k])|
  {
  }

  lemma PatchIsFirst(zone: seq<Piece>, j: nat)
    requires IsZone(zone) && j < |zone| && zone[j].PatchWord?
    ensures j == 0 && PatchLeads(zone)
  {
  }

  /** A subject has only one tag zone. */
  lemma ZoneIsUnique(s: string, y: seq<Piece>, z: seq<Piece>)
    requires IsTagZone(s, y) && IsTagZone(s, z)
    ensures y == z
  {
    hide IsTagZone;
    ZoneFits(s, y);
    ZoneFits(s, z);
    var k := Min(|y|, |z|);
    SameUpTo(s, y, z, k);
    if |y| <= |z| {
      assert y[..k] == y;
      NothingMissing(s, y, z);
    } else {
      assert z[..k] == z;
      NothingMissing(s, z, y);
    }
  }

  lemma ZoneFits(s: string, zone: seq<Piece>)
    requires IsTagZone(s, zone)
    ensures InFront(s, zone)
  {
  }

  /** So a subject has only one reading: what the extraction promises is what it does. */
  lemma ReadingIsUnique(s: string, r: Reading, y: seq<Piece>, q: Reading, z: seq<Piece>)
    requires IsReading(s, r, y) && IsReading(s, q, z)
    ensures r == q
  {
    hide IsTagZone, HasKind, LastOfKind, VersionIn, Tail, Joined, ZoneTags, ColonPart, ZoneText, PatchLeads;
    ZoneIsUnique(s, y, z);
  }
}
