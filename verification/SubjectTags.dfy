/** Reading the tags at the front of a subject line. */
module SubjectTags {
  import opened Prelude
  import opened Text
  import opened Decimal
  import opened SubjectTokens

  // ----- the pieces the tag zone is made of

  /** Colon tags and groups keep their names and contents; the rest is kept as it stands. */
  datatype Piece = Blank(text: string) | ColonTag(name: string) | PatchWord(word: string) | Group(content: string)

  predicate IsPiece(p: Piece) {
    match p
    case Blank(text) => text != [] && AllWhitespace(text)
    case ColonTag(name) => KindOf(name) in [Response, Forward]
    case PatchWord(word) => KindOf(word) == Patch
    case Group(content) => ']' !in content
  }

  function PieceText(p: Piece): string {
    match p
    case Blank(text) => text
    case ColonTag(name) => name + ":"
    case PatchWord(word) => word
    case Group(content) => "[" + content + "]"
  }

  /** With brackets in the subject the word patch in front of them only sets a flag. */
  function PieceTags(p: Piece, hasBrackets: bool): seq<string> {
    match p
    case Blank(_) => []
    case ColonTag(name) => [name]
    case PatchWord(word) => if hasBrackets then [] else [word]
    case Group(content) => GroupTags(content)
  }

  function ZoneText(zone: seq<Piece>): string {
    if zone == [] then [] else ZoneText(zone[..|zone| - 1]) + PieceText(Last(zone))
  }

  function ZoneTags(zone: seq<Piece>, hasBrackets: bool): seq<string> {
    if zone == [] then [] else ZoneTags(zone[..|zone| - 1], hasBrackets) + PieceTags(Last(zone), hasBrackets)
  }

  /** The text up to and including the last colon tag. */
  function ColonPart(zone: seq<Piece>): string {
    if zone == [] then []
    else if Last(zone).ColonTag? then ZoneText(zone)
    else ColonPart(zone[..|zone| - 1])
  }

  ghost predicate IsColonZone(zone: seq<Piece>) {
    && (forall i :: 0 <= i < |zone| ==> IsPiece(zone[i]) && (zone[i].Blank? || zone[i].ColonTag?))
    && (zone != [] ==> Last(zone).ColonTag?)
    && BlanksApart(zone)
  }

  ghost predicate BlanksApart(zone: seq<Piece>) {
    forall i, j :: 0 <= i < j < |zone| && j == i + 1 ==> !zone[i].Blank? || !zone[j].Blank?
  }

  /** Colon tags come before all groups; the word patch stands at the very front or not at all,
      instead of colon tags and not touching a group. */
  ghost predicate IsZone(zone: seq<Piece>) {
    && (forall i :: 0 <= i < |zone| ==> IsPiece(zone[i]))
    && (zone != [] ==> !Last(zone).Blank?)
    && BlanksApart(zone)
    && (forall j :: 0 < j < |zone| ==> !zone[j].PatchWord?)
    && (forall i, j :: 0 <= i < j < |zone| && zone[j].ColonTag? ==> zone[i].Blank? || zone[i].ColonTag?)
    && (|zone| > 1 && zone[0].PatchWord? ==> zone[1].Blank?)
  }

  lemma ZoneSnoc(zone: seq<Piece>, p: Piece, hasBrackets: bool)
    ensures ZoneText(zone + [p]) == ZoneText(zone) + PieceText(p)
    ensures ZoneTags(zone + [p], hasBrackets) == ZoneTags(zone, hasBrackets) + PieceTags(p, hasBrackets)
  {
    hide PieceText, PieceTags;
    assert (zone + [p])[..|zone|] == zone;
  }

  // ----- colon tags

  predicate IsLetter(c: char) {
    'a' <= c <= 'z' || 'A' <= c <= 'Z'
  }

  predicate IsAlphanumeric(c: char) {
    IsLetter(c) || IsDigit(c)
  }

  predicate IsWordChar(c: char) {
    IsAlphanumeric(c) || c == '_'
  }

  function NameEnd(s: string, i: nat): (j: nat)
    requires i <= |s|
    ensures i <= j <= |s|
    ensures forall k :: i <= k < j ==> IsWordChar(s[k]) || s[k] == '-'
    decreases |s| - i
  {
    if i < |s| && (IsWordChar(s[i]) || s[i] == '-') then NameEnd(s, i + 1) else i
  }

  /** A word of letters, digits, underscores and dashes that a colon ends. */
  predicate ColonTagAt(s: string, i: nat) {
    && i < |s| && IsLetter(s[i]) && (i == 0 || !IsWordChar(s[i - 1]))
    && NameEnd(s, i) < |s| && s[NameEnd(s, i)] == ':'
  }

  function NextColonTag(s: string, from: nat): (r: Option<nat>)
    requires from <= |s|
    ensures r.Some? ==> from <= r.value && ColonTagAt(s, r.value)
    ensures forall j: nat :: from <= j && (r.Some? ==> j < r.value) ==> !ColonTagAt(s, j)
    decreases |s| - from
  {
    if ColonTagAt(s, from) then Some(from)
    else if from == |s| then None
    else NextColonTag(s, from + 1)
  }

  /** A response or forward tag with nothing but white space between `from` and itself. */
  ghost predicate ColonTagFollows(s: string, from: nat, i: nat) {
    && from <= i && ColonTagAt(s, i) && AllWhitespace(s[from..i])
    && KindOf(s[i..NameEnd(s, i)]) in [Response, Forward]
  }

  /** The next candidate is not a tag of the chain: then no tag of the chain follows at all. */
  lemma ChainEnds(s: string, from: nat)
    requires from <= |s|
    requires var next := NextColonTag(s, from); next.Some? ==> !ColonTagFollows(s, from, next.value)
    ensures forall i: nat :: !ColonTagFollows(s, from, i)
  {
    hide NameEnd, KindOf, AllWhitespace, IsWhitespace;
    var next := NextColonTag(s, from);
    forall i: nat ensures !ColonTagFollows(s, from, i) {
      if ColonTagFollows(s, from, i) {
        LetterIsVisible(s, from, i, next.value);
        assert false;
      }
    }
  }

  lemma LetterIsVisible(s: string, from: nat, i: nat, j: nat)
    requires from <= i <= |s| && AllWhitespace(s[from..i]) && from <= j < |s| && IsLetter(s[j])
    ensures i <= j
  {
    assert forall k :: from <= k < i ==> s[k] == s[from..i][k - from];
  }

  lemma EmptyZone()
    ensures ZoneText([]) == [] && ZoneTags([], false) == [] && ZoneTags([], true) == [] && IsColonZone([])
  {
  }

  lemma AddColonTag(s: string, zone: seq<Piece>, from: nat, start: nat, end: nat) returns (after: seq<Piece>)
    requires IsColonZone(zone) && from <= start < end < |s| && ZoneText(zone) == s[..from]
    requires AllWhitespace(s[from..start]) && s[end] == ':' && KindOf(s[start..end]) in [Response, Forward]
    ensures IsColonZone(after) && ZoneText(after) == s[..end + 1]
    ensures ZoneTags(after, false) == ZoneTags(zone, false) + [s[start..end]]
  {
    hide KindOf, AllWhitespace, ZoneText, ZoneTags, IsColonZone;
    var blank, name := s[from..start], s[start..end];
    after := zone + ColonTail(blank, name);
    ColonTailText(zone, blank, name);
    ColonZoneGrows(zone, blank, name);
    assert s[..end + 1] == s[..from] + blank + (name + ":");
  }

  function ColonTail(blank: string, name: string): seq<Piece> {
    if blank == [] then [ColonTag(name)] else [Blank(blank), ColonTag(name)]
  }

  lemma ColonTailText(zone: seq<Piece>, blank: string, name: string)
    ensures ZoneText(zone + ColonTail(blank, name)) == ZoneText(zone) + blank + (name + ":")
    ensures ZoneTags(zone + ColonTail(blank, name), false) == ZoneTags(zone, false) + [name]
  {
    hide ZoneText, ZoneTags;
    if blank == [] {
      ZoneSnoc(zone, ColonTag(name), false);
      assert ZoneText(zone) + blank == ZoneText(zone);
    } else {
      ZoneSnoc(zone, Blank(blank), false);
      ZoneSnoc(zone + [Blank(blank)], ColonTag(name), false);
      assert zone + [Blank(blank)] + [ColonTag(name)] == zone + ColonTail(blank, name);
    }
  }

  lemma ColonZoneGrows(zone: seq<Piece>, blank: string, name: string)
    requires IsColonZone(zone) && AllWhitespace(blank) && KindOf(name) in [Response, Forward]
    ensures IsColonZone(zone + ColonTail(blank, name))
  {
    hide KindOf, AllWhitespace;
    var tail := ColonTail(blank, name);
    assert forall i :: 0 <= i < |tail| ==> (zone + tail)[|zone| + i] == tail[i];
  }

  lemma NameIsThere(s: string, i: nat)
    requires ColonTagAt(s, i)
    ensures i < NameEnd(s, i) < |s| && s[NameEnd(s, i)] == ':'
  {
  }

  method ProcessColonTags(prefix: string, state: TagState)
    returns (colonPrefix: string, tagEnd: nat, ghost zone: seq<Piece>)
    modifies state
    ensures tagEnd <= |prefix| && colonPrefix == prefix[..tagEnd] == ZoneText(zone)
    ensures IsColonZone(zone)
    ensures state.tags == old(state.tags) + ZoneTags(zone, false)
    ensures forall front :: old(state.Agrees(front)) ==> state.Agrees(front)
    ensures forall i: nat :: !ColonTagFollows(prefix, tagEnd, i)
  {
    hide TagState.Agrees, KindOf, IsPiece, NameEnd, Trim, ZoneText, ZoneTags, IsColonZone, IsWhitespace;
    EmptyZone();
    tagEnd := 0;
    zone := [];
    while true
      invariant tagEnd <= |prefix| && ZoneText(zone) == prefix[..tagEnd]
      invariant IsColonZone(zone)
      invariant state.tags == old(state.tags) + ZoneTags(zone, false)
      invariant forall front :: old(state.Agrees(front)) ==> state.Agrees(front)
      decreases |prefix| - tagEnd
    {
      var next := NextColonTag(prefix, tagEnd);
      if next.None? {
        ChainEnds(prefix, tagEnd);
        break;
      }
      var start := next.value;
      var end := NameEnd(prefix, start);
      NameIsThere(prefix, start);
      var gap := prefix[tagEnd..start];
      TrimEmptyIff(gap);
      if start > tagEnd && Trim(gap) != [] {
        ChainEnds(prefix, tagEnd);
        break;
      }
      var name := prefix[start..end];
      var kind := KindOf(name);
      if kind != Response && kind != Forward {
        ChainEnds(prefix, tagEnd);
        break;
      }
      state.PushColonTag(name);
      zone := AddColonTag(prefix, zone, tagEnd, start, end);
      tagEnd := end + 1;
    }
    colonPrefix := prefix[..tagEnd];
  }

  // ----- bracket groups

  function FindChar(s: string, c: char, from: nat): (r: Option<nat>)
    requires from <= |s|
    ensures r.Some? ==> from <= r.value < |s| && s[r.value] == c
    ensures forall j :: from <= j < |s| && (r.Some? ==> j < r.value) ==> s[j] != c
    decreases |s| - from
  {
    if from == |s| then None
    else if s[from] == c then Some(from)
    else FindChar(s, c, from + 1)
  }

  /** The bounds of the next group: from an opening bracket to the first closing one after it. */
  function NextGroup(s: string, from: nat): (r: Option<(nat, nat)>)
    requires from <= |s|
    ensures r.Some? ==> from <= r.value.0 && r.value.0 + 1 < r.value.1 <= |s|
    ensures r.Some? ==> s[r.value.0] == '[' && s[r.value.1 - 1] == ']' && ']' !in s[r.value.0 + 1..r.value.1 - 1]
    ensures forall j :: from <= j < |s| && (r.Some? ==> j < r.value.0) ==> !GroupAt(s, j)
  {
    var open := FindChar(s, '[', from);
    if open.None? then None
    else
      var close := FindChar(s, ']', open.value + 1);
      if close.None? then None else Some((open.value, close.value + 1))
  }

  ghost predicate GroupAt(s: string, i: nat) {
    i < |s| && s[i] == '[' && exists k :: i < k < |s| && s[k] == ']'
  }

  /** A group with nothing but white space between `from` and itself, and not attached to a word. */
  ghost predicate GroupFollows(s: string, from: nat, i: nat) {
    from <= i && GroupAt(s, i) && AllWhitespace(s[from..i]) && (i == 0 || !IsAlphanumeric(s[i - 1]))
  }

  /** Past a bracket that is no group of the zone, no bracket is. */
  lemma SkipGroup(s: string, tagEnd: nat, cursor: nat, start: nat)
    requires tagEnd <= start && cursor <= start < |s| && s[start] == '['
    requires (start > 0 && IsAlphanumeric(s[start - 1])) || !AllWhitespace(s[tagEnd..start])
    requires forall i: nat :: i < cursor ==> !GroupFollows(s, tagEnd, i)
    requires forall j :: cursor <= j < start ==> !GroupAt(s, j)
    ensures forall i: nat :: !GroupFollows(s, tagEnd, i)
  {
    hide IsWhitespace, IsAlphanumeric, GroupAt, AllWhitespace;
    forall i: nat ensures !GroupFollows(s, tagEnd, i) {
      if GroupFollows(s, tagEnd, i) {
        GroupFits(s, i);
        BracketIsVisible(s, tagEnd, i, start);
      }
    }
  }

  lemma GroupFits(s: string, i: nat)
    requires GroupAt(s, i)
    ensures i < |s| && s[i] == '['
  {
  }

  lemma NoGroupLeft(s: string, tagEnd: nat, cursor: nat)
    requires forall i: nat :: i < cursor ==> !GroupFollows(s, tagEnd, i)
    requires forall j :: cursor <= j < |s| ==> !GroupAt(s, j)
    ensures forall i: nat :: !GroupFollows(s, tagEnd, i)
  {
  }

  lemma NothingBefore(s: string, tagEnd: nat)
    ensures forall i: nat :: i < tagEnd ==> !GroupFollows(s, tagEnd, i)
  {
  }

  predicate NoOpening(s: string, from: nat, upto: nat)
    requires upto <= |s|
  {
    forall j :: from <= j < upto ==> s[j] != '['
  }

  lemma BracketIsVisible(s: string, from: nat, i: nat, j: nat)
    requires from <= i <= |s| && AllWhitespace(s[from..i]) && from <= j < |s| && s[j] == '['
    ensures i <= j
  {
    assert forall k :: from <= k < i ==> s[k] == s[from..i][k - from];
  }

  /** No bracket first thing after the group: the zone ends here. */
  lemma ZoneCloses(s: string, from: nat)
    requires from <= |s| && !StartsWith(TrimStart(s[from..]), "[")
    ensures forall i: nat :: !GroupFollows(s, from, i)
  {
    hide IsWhitespace, IsAlphanumeric;
    var rest := s[from..];
    forall i: nat ensures !GroupFollows(s, from, i) {
      if GroupFollows(s, from, i) {
        BracketLeads(s, from, i);
        assert false;
      }
    }
  }

  lemma BracketLeads(s: string, from: nat, i: nat)
    requires from <= i < |s| && s[i] == '[' && AllWhitespace(s[from..i])
    ensures StartsWith(TrimStart(s[from..]), "[")
  {
    var rest := s[from..];
    assert rest[..i - from] == s[from..i];
    LeadingWhitespaceIs(rest, i - from);
    assert TrimStart(rest)[..1] == [rest[i - from]];
  }

  predicate PatchLeads(zone: seq<Piece>) {
    zone != [] && zone[0].PatchWord?
  }

  lemma AddGroup(s: string, hasBrackets: bool, zone: seq<Piece>, from: nat, start: nat, end: nat)
    returns (after: seq<Piece>)
    requires IsZone(zone) && from <= start && start + 1 < end <= |s| && ZoneText(zone) == s[..from]
    requires AllWhitespace(s[from..start]) && s[start] == '[' && s[end - 1] == ']'
    requires ']' !in s[start + 1..end - 1] && (start == 0 || !IsAlphanumeric(s[start - 1]))
    ensures IsZone(after) && ZoneText(after) == s[..end]
    ensures ZoneTags(after, hasBrackets) == ZoneTags(zone, hasBrackets) + GroupTags(s[start + 1..end - 1])
    ensures ColonPart(after) == ColonPart(zone) && PatchLeads(after) == PatchLeads(zone)
  {
    hide AllWhitespace, ZoneText, ZoneTags, IsAlphanumeric, KindOf, GroupTags, IsZone, ColonPart, PatchLeads;
    var content := s[start + 1..end - 1];
    var tail := GroupTail(s[from..start], content);
    GroupTailText(zone, s[from..start], content, hasBrackets);
    SliceOfGroup(s, from, start, end);
    if start == from && zone != [] && Last(zone).PatchWord? {
      PatchWordIsAttached(s, zone, from);
    }
    ZoneGrows(zone, tail);
    after := zone + tail;
  }

  function GroupTail(blank: string, content: string): seq<Piece> {
    if blank == [] then [Group(content)] else [Blank(blank), Group(content)]
  }

  lemma GroupTailText(zone: seq<Piece>, blank: string, content: string, hasBrackets: bool)
    ensures ZoneText(zone + GroupTail(blank, content)) == ZoneText(zone) + blank + ("[" + content + "]")
    ensures ZoneTags(zone + GroupTail(blank, content), hasBrackets) == ZoneTags(zone, hasBrackets) + GroupTags(content)
  {
    hide ZoneText, ZoneTags, GroupTags;
    if blank == [] {
      ZoneSnoc(zone, Group(content), hasBrackets);
      assert ZoneText(zone) + blank == ZoneText(zone);
    } else {
      ZoneSnoc(zone, Blank(blank), hasBrackets);
      ZoneSnoc(zone + [Blank(blank)], Group(content), hasBrackets);
      assert zone + [Blank(blank)] + [Group(content)] == zone + GroupTail(blank, content);
    }
  }

  lemma SliceOfGroup(s: string, from: nat, start: nat, end: nat)
    requires from <= start && start + 1 < end <= |s| && s[start] == '[' && s[end - 1] == ']'
    ensures s[..from] + s[from..start] + ("[" + s[start + 1..end - 1] + "]") == s[..end]
  {
  }

  lemma ZoneGrows(zone: seq<Piece>, tail: seq<Piece>)
    requires IsZone(zone) && tail != [] && (forall i :: 0 <= i < |tail| ==> IsPiece(tail[i]))
    requires tail == [Last(tail)] || tail == [tail[0], Last(tail)]
    requires Last(tail).Group? && (|tail| > 1 ==> tail[0].Blank?)
    requires |tail| == 1 && zone != [] ==> !Last(zone).PatchWord?
    ensures IsZone(zone + tail)
    ensures ColonPart(zone + tail) == ColonPart(zone) && PatchLeads(zone + tail) == PatchLeads(zone)
  {
    hide IsPiece, ColonPart, BlanksApart;
    var after := zone + tail;
    assert forall i :: 0 <= i < |zone| ==> after[i] == zone[i];
    assert forall i :: 0 <= i < |tail| ==> after[|zone| + i] == tail[i];
    ColonPartGrows(zone, tail);
    BlanksStayApart(zone, tail);
  }

  lemma BlanksStayApart(zone: seq<Piece>, tail: seq<Piece>)
    requires BlanksApart(zone) && (zone != [] ==> !Last(zone).Blank?) && BlanksApart(tail)
    ensures BlanksApart(zone + tail)
  {
  }

  lemma {:induction false} ColonPartGrows(zone: seq<Piece>, tail: seq<Piece>)
    requires forall i :: 0 <= i < |tail| ==> !tail[i].ColonTag?
    ensures ColonPart(zone + tail) == ColonPart(zone)
  {
    hide ZoneText;
    var after := zone + tail;
    if tail == [] {
      assert after == zone;
    } else {
      assert after[..|after| - 1] == zone + tail[..|tail| - 1];
      assert Last(after) == Last(tail);
      ColonPartGrows(zone, tail[..|tail| - 1]);
    }
  }

  lemma PatchWordIsAttached(s: string, zone: seq<Piece>, from: nat)
    requires IsZone(zone) && from <= |s| && ZoneText(zone) == s[..from]
    requires zone != [] && Last(zone).PatchWord?
    ensures from > 0 && IsAlphanumeric(s[from - 1])
  {
    hide IsSequence, IsVersion;
    var word := Last(zone).word;
    assert |Lower(word)| == |word| == 5;
    assert LowerChar(word[4]) == Lower(word)[4] == 'h';
    assert s[..from][from - 1] == word[4];
  }

  /** The loop over the bracket groups, from the end of the colon tags or the word patch on. */
  method ReadGroups(s: string, state: TagState, from: nat, ghost before: seq<Piece>)
    returns (tagEnd: nat, ghost zone: seq<Piece>)
    requires from <= |s| && IsZone(before) && ZoneText(before) == s[..from] && NoOpening(s, 0, from)
    requires state.tags == ZoneTags(before, '[' in s)
    modifies state
    ensures tagEnd <= |s| && IsZone(zone) && ZoneText(zone) == s[..tagEnd]
    ensures state.tags == ZoneTags(zone, '[' in s)
    ensures forall front :: old(state.Agrees(front)) ==> state.Agrees(front)
    ensures ColonPart(zone) == ColonPart(before) && PatchLeads(zone) == PatchLeads(before)
    ensures forall i: nat :: !GroupFollows(s, tagEnd, i)
  {
    hide TagState.Agrees, IsZone, ZoneText, ZoneTags, ColonPart, PatchLeads, GroupTags, TrimStart, Trim,
      GroupFollows, GroupAt, IsAlphanumeric, IsWhitespace;
    tagEnd, zone := from, before;
    var zoneActive := true;
    var cursor := 0;
    while true
      invariant tagEnd <= |s| && cursor <= |s| && NoOpening(s, cursor, tagEnd)
      invariant IsZone(zone) && ZoneText(zone) == s[..tagEnd]
      invariant state.tags == ZoneTags(zone, '[' in s)
      invariant forall front :: old(state.Agrees(front)) ==> state.Agrees(front)
      invariant ColonPart(zone) == ColonPart(before) && PatchLeads(zone) == PatchLeads(before)
      invariant forall i: nat :: (zoneActive ==> i < cursor) ==> !GroupFollows(s, tagEnd, i)
      decreases |s| - cursor
    {
      var next := NextGroup(s, cursor);
      if next.None? {
        NoGroupLeft(s, tagEnd, cursor);
        break;
      }
      var (start, end) := next.value;
      if start > 0 && IsAlphanumeric(s[start - 1]) {
        SkipGroup(s, tagEnd, cursor, start);
        cursor := end;
        continue;
      }
      if !zoneActive {
        break;
      }
      TrimEmptyIff(s[tagEnd..start]);
      if start > tagEnd && Trim(s[tagEnd..start]) != [] {
        SkipGroup(s, tagEnd, cursor, start);
        cursor := end;
        continue;
      }
      zone := AddGroup(s, '[' in s, zone, tagEnd, start, end);
      state.PushGroup(s[start + 1..end - 1]);
      tagEnd := end;
      cursor := end;
      if !StartsWith(TrimStart(s[end..]), "[") {
        ZoneCloses(s, end);
        zoneActive := false;
      }
      NothingBefore(s, end);
    }
  }

  // ----- the whole subject

  datatype Reading = Reading(
    hasPatch: bool, hasRfc: bool, hasResponse: bool, hasForward: bool,
    version: Option<nat>, sequence: Option<string>, tags: seq<string>, untagged: string)

  /** The text colon tags and the word patch are looked for in: up to the first bracket or quote. */
  function FrontOf(s: string): (front: string)
    ensures front <= s && '[' !in front && '"' !in front
  {
    var bracket := FindChar(s, '[', 0);
    var raw := if bracket.None? then s else s[..bracket.value];
    var quote := FindChar(raw, '"', 0);
    if quote.None? then raw else raw[..quote.value]
  }

  predicate PatchInFront(front: string) {
    |front| >= 5 && KindOf(front[..5]) == Patch && (|front| == 5 || !IsWordChar(front[5]))
  }

  /** `trim_start_matches` with one character. */
  function StripLeading(s: string, c: char): string {
    if s != [] && s[0] == c then StripLeading(s[1..], c) else s
  }

  /** What is kept of the text after the tags. */
  function Tail(rest: string): string {
    Trim(StripLeading(StripLeading(Trim(rest), '"'), ']'))
  }

  function Joined(colonPrefix: string, tail: string): string {
    colonPrefix + (if colonPrefix == [] || tail == [] then "" else " ") + tail
  }

  /** The zone is a front of the subject that no further tag follows. */
  ghost predicate IsTagZone(s: string, zone: seq<Piece>) {
    && IsZone(zone) && ZoneText(zone) <= s && ColonPart(zone) <= FrontOf(s)
    && (PatchLeads(zone) <==> PatchInFront(FrontOf(s)))
    && (forall i: nat :: !ColonTagFollows(FrontOf(s), |ColonPart(zone)|, i))
    && (forall i: nat :: !GroupFollows(s, |ZoneText(zone)|, i))
  }

  /** The tags are those of the zone, the other fields can be read off the tags, and the untagged
      subject is the colon tags as they stand and the text after the zone. */
  ghost predicate IsReading(s: string, r: Reading, zone: seq<Piece>) {
    && IsTagZone(s, zone)
    && r.tags == ZoneTags(zone, '[' in s)
    && (r.hasPatch <==> PatchLeads(zone) || HasKind(r.tags, Patch))
    && (r.hasRfc <==> HasKind(r.tags, Rfc))
    && (r.hasResponse <==> HasKind(r.tags, Response))
    && (r.hasForward <==> HasKind(r.tags, Forward))
    && r.version == VersionIn(r.tags)
    && r.sequence == LastOfKind(r.tags, Sequence)
    && r.untagged == Joined(ColonPart(zone), Tail(s[|ZoneText(zone)|..]))
  }

  lemma {:induction false} ColonZoneTags(zone: seq<Piece>, hasBrackets: bool)
    requires forall i :: 0 <= i < |zone| ==> zone[i].Blank? || zone[i].ColonTag?
    ensures ZoneTags(zone, hasBrackets) == ZoneTags(zone, false)
  {
    if zone != [] {
      ColonZoneTags(zone[..|zone| - 1], hasBrackets);
    }
  }

  lemma ColonZoneIsZone(zone: seq<Piece>, hasBrackets: bool)
    requires IsColonZone(zone)
    ensures IsZone(zone) && ColonPart(zone) == ZoneText(zone) && !PatchLeads(zone)
    ensures ZoneTags(zone, hasBrackets) == ZoneTags(zone, false)
  {
    hide ZoneText, ZoneTags, IsPiece;
    ColonZoneTags(zone, hasBrackets);
    assert zone == [] ==> ZoneText(zone) == [] by { EmptyZone(); }
  }

  lemma FirstLetter(tag: string)
    requires KindOf(tag) in [Response, Forward, Patch]
    ensures tag != [] && LowerChar(tag[0]) in (if KindOf(tag) == Patch then "p" else "rf")
  {
    hide IsVersion, IsSequence;
    var lower := Lower(tag);
    assert |lower| == |tag| && (tag != [] ==> lower[0] == LowerChar(tag[0]));
  }

  lemma {:induction false} ZoneStart(zone: seq<Piece>)
    requires zone != [] && IsPiece(zone[0])
    ensures PieceText(zone[0]) <= ZoneText(zone) && PieceText(zone[0]) != []
  {
    if |zone| == 1 {
      assert zone[..0] == [];
      if !zone[0].Blank? && !zone[0].Group? {
        FirstLetter(if zone[0].ColonTag? then zone[0].name else zone[0].word);
      }
    } else {
      hide PieceText, IsPiece;
      ZoneStart(zone[..|zone| - 1]);
    }
  }

  /** The word patch in front leaves no room for colon tags. */
  lemma PatchExcludesColon(front: string, zone: seq<Piece>)
    requires PatchInFront(front) && IsColonZone(zone) && ZoneText(zone) <= front
    ensures zone == []
  {
    hide KindOf, IsWhitespace, ZoneText;
    FirstLetter(front[..5]);
    if zone != [] {
      ZoneStart(zone);
      assert PieceText(zone[0])[0] == front[0] == front[..5][0];
      LetterNotWhitespace(front[0]);
      if zone[0].ColonTag? {
        FirstLetter(zone[0].name);
      }
    }
  }

  lemma LetterNotWhitespace(c: char)
    ensures LowerChar(c) in "prf" ==> !IsWhitespace(c)
  {
  }

  lemma PatchZone(word: string, hasBrackets: bool)
    requires KindOf(word) == Patch
    ensures IsZone([PatchWord(word)]) && ZoneText([PatchWord(word)]) == word
    ensures ColonPart([PatchWord(word)]) == [] && PatchLeads([PatchWord(word)])
    ensures ZoneTags([PatchWord(word)], hasBrackets) == if hasBrackets then [] else [word]
  {
    hide KindOf;
    var zone := [PatchWord(word)];
    assert zone[..0] == [];
  }

  /** Colon tags and the word patch, at the front of a trimmed subject. */
  method ReadFront(subject: string, state: TagState)
    returns (colonPrefix: string, tagEnd: nat, ghost zone: seq<Piece>)
    requires state.tags == [] && state.Agrees(false)
    modifies state
    ensures tagEnd <= |subject| && ZoneText(zone) == subject[..tagEnd] && NoOpening(subject, 0, tagEnd)
    ensures IsZone(zone) && ColonPart(zone) == colonPrefix && colonPrefix <= FrontOf(subject)
    ensures PatchLeads(zone) <==> PatchInFront(FrontOf(subject))
    ensures state.tags == ZoneTags(zone, '[' in subject) && state.Agrees(PatchLeads(zone))
    ensures forall i: nat :: !ColonTagFollows(FrontOf(subject), |colonPrefix|, i)
  {
    hide TagState.Agrees, IsZone, IsColonZone, ZoneText, ZoneTags, ColonPart, PatchLeads, ColonTagFollows,
      KindOf, FrontOf;
    var front := FrontOf(subject);
    colonPrefix, tagEnd, zone := ProcessColonTags(front, state);
    EmptyZone();
    ColonZoneIsZone(zone, '[' in subject);
    FrontHasNoOpening(subject);
    if PatchInFront(front) {
      PatchExcludesColon(front, zone);
      PatchZone(front[..5], '[' in subject);
      state.PushPatchWord(front[..5], '[' in subject);
      zone := [PatchWord(front[..5])];
      tagEnd := Max(tagEnd, 5);
    }
  }

  lemma FrontHasNoOpening(s: string)
    ensures FrontOf(s) <= s && NoOpening(s, 0, |FrontOf(s)|)
    ensures forall n :: 0 <= n <= |FrontOf(s)| ==> FrontOf(s)[..n] == s[..n]
  {
    var front := FrontOf(s);
    assert forall j :: 0 <= j < |front| ==> s[j] == front[j];
  }

  lemma {:induction false} ColonPartEnds(zone: seq<Piece>)
    requires forall i :: 0 <= i < |zone| ==> IsPiece(zone[i])
    ensures ColonPart(zone) == [] || Last(ColonPart(zone)) == ':'
  {
    if zone != [] {
      hide IsPiece;
      ColonPartEnds(zone[..|zone| - 1]);
    }
  }

  predicate TightOrEmpty(s: string) {
    s == [] || Tight(s)
  }

  lemma TrimOfTight(s: string)
    requires TightOrEmpty(s)
    ensures Trim(s) == s
  {
    if s == [] {
      TrimEmptyIff(s);
    } else {
      TrimPadded([], s, []);
      assert [] + s + [] == s;
    }
  }

  lemma JoinedTight(a: string, b: string)
    requires TightOrEmpty(a) && TightOrEmpty(b)
    ensures TightOrEmpty(Joined(a, b))
  {
    hide IsWhitespace;
    var j := Joined(a, b);
    if a != [] && b != [] {
      assert j[0] == a[0] && Last(j) == Last(b);
    }
  }

  /** The last trimming of the code has nothing left to trim. */
  lemma JoinedIsTrimmed(s: string, zone: seq<Piece>, rest: string)
    requires TightOrEmpty(s) && IsZone(zone) && ColonPart(zone) <= s
    ensures Trim(Joined(ColonPart(zone), Tail(rest))) == Joined(ColonPart(zone), Tail(rest))
  {
    hide Trim, Joined, ColonPart, IsPiece;
    ColonPartEnds(zone);
    TrimTight(StripLeading(StripLeading(Trim(rest), '"'), ']'));
    JoinedTight(ColonPart(zone), Tail(rest));
    TrimOfTight(Joined(ColonPart(zone), Tail(rest)));
  }

  method ExtractTags(emailSubject: string) returns (r: Reading)
    ensures exists zone :: IsReading(Trim(emailSubject), r, zone)
  {
    hide Trim, IsZone, ZoneText, ZoneTags, ColonPart, PatchLeads, GroupFollows, ColonTagFollows, PatchInFront,
      FrontOf, Tail, HasKind, LastOfKind, VersionIn, Joined;
    var subject := Trim(emailSubject);
    TrimTight(emailSubject);
    var state := new TagState();
    var colonPrefix, tagEnd;
    ghost var zone;
    colonPrefix, tagEnd, zone := ReadFront(subject, state);
    tagEnd, zone := ReadGroups(subject, state, tagEnd, zone);
    var tail := Tail(subject[tagEnd..]);
    JoinedIsTrimmed(subject, zone, subject[tagEnd..]);
    var untagged := Trim(Joined(colonPrefix, tail));
    r := Reading(state.hasPatch, state.hasRfc, state.hasResponse, state.hasForward,
                 state.version, state.sequence, state.tags, untagged);
    assert IsReading(subject, r, zone);
  }
}
