/** The tokens inside a subject's brackets, and the state the tags found are collected in. */
module SubjectTokens {
  import opened Prelude
  import opened Text
  import opened Decimal

  // ----- the kinds of tags

  const U16_MAX := 0xFFFF

  datatype Kind = Patch | Rfc | Response | Forward | Version | Sequence | Other

  predicate IsVersion(tag: string) {
    |tag| > 1 && (tag[0] == 'v' || tag[0] == 'V') && AllDigits(tag[1..])
  }

  predicate IsSequence(tag: string) {
    var parts := SplitOnce(tag, "/");
    parts.Some? && parts.value.0 != [] && parts.value.1 != []
    && AllDigits(parts.value.0) && AllDigits(parts.value.1)
  }

  function KindOf(tag: string): Kind {
    var lower := Lower(tag);
    if lower == "patch" then Patch
    else if lower == "rfc" then Rfc
    else if lower in ["re", "res"] then Response
    else if lower in ["fw", "fwd", "forward"] then Forward
    else if IsVersion(tag) then Version
    else if IsSequence(tag) then Sequence
    else Other
  }

  ghost predicate HasKind(tags: seq<string>, k: Kind) {
    exists i :: 0 <= i < |tags| && KindOf(tags[i]) == k
  }

  /** The last tag of a kind. */
  function LastOfKind(tags: seq<string>, k: Kind): Option<string> {
    if tags == [] then None
    else if KindOf(Last(tags)) == k then Some(Last(tags))
    else LastOfKind(tags[..|tags| - 1], k)
  }

  lemma {:induction false} LastOfKindIsLast(tags: seq<string>, k: Kind)
    ensures var r := LastOfKind(tags, k);
      && (r.None? <==> !HasKind(tags, k))
      && (r.Some? ==> exists i :: 0 <= i < |tags| && tags[i] == r.value && KindOf(tags[i]) == k
                        && forall j :: i < j < |tags| ==> KindOf(tags[j]) != k)
  {
    hide KindOf;
    if tags != [] {
      var older := tags[..|tags| - 1];
      LastOfKindIsLast(older, k);
      assert tags == older + [Last(tags)];
      HasKindSnoc(older, Last(tags), k);
    }
  }

  /** `str::parse::<u16>` on the digits after the `v`. */
  function VersionNumber(tag: string): Option<nat>
    requires IsVersion(tag)
  {
    var n := Value(tag[1..]);
    if n > U16_MAX then None else Some(n)
  }

  // ----- tokens glued together

  function DigitRun(s: string): (n: nat)
    ensures n <= |s| && AllDigits(s[..n]) && (n < |s| ==> !IsDigit(s[n]))
  {
    if s == [] || !IsDigit(s[0]) then 0
    else
      var n := 1 + DigitRun(s[1..]);
      assert forall i :: 0 < i < n ==> s[..n][i] == s[1..][..n - 1][i - 1];
      n
  }

  /** The length of the known part that starts here: `patch`, `rfc` or a version; zero for none. */
  function PartLength(s: string): (n: nat)
    ensures n <= |s|
  {
    if |s| >= 5 && Lower(s[..5]) == "patch" then 5
    else if |s| >= 3 && Lower(s[..3]) == "rfc" then 3
    else if |s| >= 2 && (s[0] == 'v' || s[0] == 'V') && DigitRun(s[1..]) > 0 then 1 + DigitRun(s[1..])
    else 0
  }

  /** All known parts, left to right, with everything between them dropped. */
  function GluedParts(s: string): seq<string> {
    if s == [] then []
    else
      var n := PartLength(s);
      if n == 0 then GluedParts(s[1..]) else [s[..n]] + GluedParts(s[n..])
  }

  predicate StartsGlued(token: string) {
    StartsWith(Lower(token), "patch") || StartsWith(Lower(token), "rfc")
  }

  function SplitGlued(token: string): seq<string> {
    if !StartsGlued(token) then [token]
    else
      var parts := GluedParts(token);
      if parts == [] then [token] else parts
  }

  predicate IsPart(part: string) {
    KindOf(part) in [Patch, Rfc, Version]
  }

  lemma LowerConcat(a: string, b: string)
    ensures Lower(a + b) == Lower(a) + Lower(b)
  {
  }

  lemma DigitRunIs(s: string, n: nat)
    requires n <= |s| && AllDigits(s[..n]) && (n < |s| ==> !IsDigit(s[n]))
    ensures DigitRun(s) == n
  {
    var m := DigitRun(s);
    assert forall i :: 0 <= i < n ==> s[..n][i] == s[i];
    assert forall i :: 0 <= i < m ==> s[..m][i] == s[i];
  }

  /** A known part in front of a text that does not go on with a digit is found whole. */
  lemma PartInFront(part: string, rest: string)
    requires IsPart(part) && (rest != [] ==> !IsDigit(rest[0]))
    ensures PartLength(part + rest) == |part|
  {
    hide IsSequence, IsDigit, AllDigits, DigitRun;
    var s := part + rest;
    assert s[..|part|] == part;
    FirstLowers(s, 3);
    FirstLowers(s, 5);
    if IsVersion(part) {
      assert LowerChar(part[0]) == Lower(part)[0];
      assert s[1..] == part[1..] + rest;
      assert (part[1..] + rest)[..|part| - 1] == part[1..];
      DigitRunIs(s[1..], |part| - 1);
    } else {
      assert |Lower(part)| == |part| && Lower(part)[0] == LowerChar(s[0]);
    }
  }

  lemma FirstLowers(s: string, n: nat)
    requires s != [] && n > 0
    ensures n <= |s| ==> Lower(s[..n]) != [] && Lower(s[..n])[0] == LowerChar(s[0])
  {
  }

  /** Gluing known parts together and splitting them again gives the parts back. */
  lemma {:induction false} GluedRoundTrip(parts: seq<string>)
    requires forall i :: 0 <= i < |parts| ==> IsPart(parts[i])
    ensures GluedParts(Flatten(parts)) == parts
  {
    if parts != [] {
      hide PartLength, IsPart;
      var rest := Flatten(parts[1..]);
      PartsStartVisibly(parts[1..]);
      PartNonEmpty(parts[0]);
      PartInFront(parts[0], rest);
      GluedRoundTrip(parts[1..]);
      var s := parts[0] + rest;
      assert s[..|parts[0]|] == parts[0] && s[|parts[0]|..] == rest;
    }
  }

  lemma PartNonEmpty(part: string)
    requires IsPart(part)
    ensures part != [] && !IsDigit(part[0])
  {
    hide IsSequence;
    assert part != [] ==> Lower(part)[0] == LowerChar(part[0]);
  }

  lemma PartsStartVisibly(parts: seq<string>)
    requires forall i :: 0 <= i < |parts| ==> IsPart(parts[i])
    ensures Flatten(parts) != [] ==> !IsDigit(Flatten(parts)[0])
  {
    hide IsPart;
    if parts != [] {
      PartNonEmpty(parts[0]);
    }
  }

  /** A token made of known parts, the first of them not a version, is split into exactly these. */
  lemma SplitGluedRoundTrip(parts: seq<string>)
    requires parts != [] && forall i :: 0 <= i < |parts| ==> IsPart(parts[i])
    requires KindOf(parts[0]) != Version
    ensures SplitGlued(Flatten(parts)) == parts
  {
    hide GluedParts;
    GluedRoundTrip(parts);
    StartsGluedInFront(parts[0], Flatten(parts[1..]));
  }

  /** A token that starts like a known part has one: the split never comes out empty. */
  lemma GluedHasParts(token: string)
    requires StartsGlued(token)
    ensures GluedParts(token) != []
  {
    hide DigitRun, IsDigit;
    LowerPrefix(token, 5);
    LowerPrefix(token, 3);
  }

  lemma LowerPrefix(s: string, n: nat)
    ensures n <= |s| ==> Lower(s[..n]) == Lower(s)[..n]
  {
  }

  lemma StartsGluedInFront(part: string, rest: string)
    requires KindOf(part) in [Patch, Rfc]
    ensures StartsGlued(part + rest)
  {
    hide IsSequence, IsVersion;
    LowerConcat(part, rest);
    assert (Lower(part) + Lower(rest))[..|part|] == Lower(part);
  }

  // ----- the tokens of a bracket group

  /** The length of the run of visible characters the text starts with. */
  function WordLength(s: string): (n: nat)
    ensures n <= |s| && (forall i :: 0 <= i < n ==> !IsWhitespace(s[i])) && (n < |s| ==> IsWhitespace(s[n]))
  {
    if s == [] || IsWhitespace(s[0]) then 0
    else
      var n := 1 + WordLength(s[1..]);
      assert forall i :: 0 < i < n ==> s[i] == s[1..][i - 1];
      n
  }

  /** `split_whitespace`. */
  function Words(s: string): seq<string>
    decreases |s|
  {
    var t := TrimStart(s);
    if t == [] then [] else [t[..WordLength(t)]] + Words(t[WordLength(t)..])
  }

  function WithoutBrackets(s: string): string {
    if s == [] then []
    else (if s[0] == '[' || s[0] == ']' then [] else [s[0]]) + WithoutBrackets(s[1..])
  }

  function TrimDots(s: string): string {
    if s != [] && Last(s) == '.' then TrimDots(s[..|s| - 1]) else s
  }

  /** The token a word stands for: one colon at its end and then all dots at its end are dropped. */
  function TokenOf(word: string): string {
    TrimDots(if EndsWith(word, ":") then word[..|word| - 1] else word)
  }

  function WordTags(word: string): seq<string> {
    if TokenOf(word) == [] then [] else SplitGlued(TokenOf(word))
  }

  function TagsOfWords(words: seq<string>): seq<string> {
    if words == [] then [] else WordTags(words[0]) + TagsOfWords(words[1..])
  }

  /** The tags between the brackets of a group. */
  function GroupTags(content: string): seq<string> {
    TagsOfWords(Words(WithoutBrackets(content)))
  }

  lemma {:induction false} TagsOfWordsSnoc(words: seq<string>, n: nat)
    requires n < |words|
    ensures TagsOfWords(words[..n + 1]) == TagsOfWords(words[..n]) + WordTags(words[n])
  {
    hide WordTags;
    if n > 0 {
      TagsOfWordsSnoc(words[1..], n - 1);
      assert words[..n + 1][1..] == words[1..][..n] && words[..n][1..] == words[1..][..n - 1];
    } else {
      assert words[..1][1..] == [] && words[..0] == [];
    }
  }

  /** A text's visible characters. */
  function Visible(s: string): string {
    if s == [] then [] else (if IsWhitespace(s[0]) then [] else [s[0]]) + Visible(s[1..])
  }

  lemma {:induction false} VisibleConcat(a: string, b: string)
    ensures Visible(a + b) == Visible(a) + Visible(b)
  {
    if a == [] {
      assert a + b == b;
    } else {
      assert (a + b)[1..] == a[1..] + b;
      VisibleConcat(a[1..], b);
    }
  }

  lemma {:induction false} VisibleOf(s: string)
    ensures AllWhitespace(s) ==> Visible(s) == []
    ensures (forall i :: 0 <= i < |s| ==> !IsWhitespace(s[i])) ==> Visible(s) == s
  {
    if s != [] {
      hide IsWhitespace;
      VisibleOf(s[1..]);
      assert s == [s[0]] + s[1..];
    }
  }

  lemma FirstWord(s: string)
    ensures var t := TrimStart(s);
            if t == [] then Visible(s) == [] else
              var w := t[..WordLength(t)];
              w != [] && Visible(w) == w && Visible(s) == w + Visible(t[|w|..])
  {
    hide IsWhitespace, AllWhitespace, LeadingWhitespace, Visible, WordLength;
    var n := LeadingWhitespace(s);
    var t := TrimStart(s);
    var m := WordLength(t);
    assert s == s[..n] + t && t == t[..m] + t[m..];
    VisibleConcat(s[..n], t);
    VisibleConcat(t[..m], t[m..]);
    VisibleOf(s[..n]);
    VisibleOf(t[..m]);
    VisibleEmpty();
  }

  lemma VisibleEmpty()
    ensures Visible([]) == []
  {
  }

  /** Cutting a text into words loses white space only, and no word is empty. */
  lemma {:induction false} WordsKeepText(s: string)
    ensures Flatten(Words(s)) == Visible(s)
    ensures forall w :: w in Words(s) ==> w != [] && Visible(w) == w
    decreases |s|
  {
    hide TrimStart, Visible, WordLength;
    FirstWord(s);
    var t := TrimStart(s);
    if t != [] {
      TrimStartShorter(s);
      var w := t[..WordLength(t)];
      WordsKeepText(t[|w|..]);
      assert Words(s) == [w] + Words(t[|w|..]);
    }
  }

  lemma TrimStartShorter(s: string)
    ensures |TrimStart(s)| <= |s|
  {
  }

  // ----- the state

  class TagState {
    var tags: seq<string>
    var hasPatch: bool
    var hasRfc: bool
    var hasResponse: bool
    var hasForward: bool
    var version: Option<nat>
    var sequence: Option<string>

    constructor ()
      ensures Agrees(false) && tags == []
    {
      tags, hasPatch, hasRfc, hasResponse, hasForward := [], false, false, false, false;
      version, sequence := None, None;
    }

    /** Every field can be read off the tags, the patch flag unless the word `patch` stands in
        front of the subject; of several versions or sequence numbers the last counts. */
    ghost predicate Agrees(patchInFront: bool)
      reads this
    {
      && (hasPatch <==> patchInFront || HasKind(tags, Patch))
      && (hasRfc <==> HasKind(tags, Rfc))
      && (hasResponse <==> HasKind(tags, Response))
      && (hasForward <==> HasKind(tags, Forward))
      && version == VersionIn(tags)
      && sequence == LastOfKind(tags, Sequence)
    }

    method PushTag(token: string, inBracket: bool)
      modifies this
      ensures tags == old(tags) + SplitGlued(token)
      ensures forall front :: old(Agrees(front)) && inBracket ==> Agrees(front)
    {
      hide SplitGlued, KindOf, Agrees;
      var parts := SplitGlued(token);
      ghost var start := tags;
      var i := 0;
      assert start + parts[..0] == start;
      while i < |parts|
        invariant i <= |parts| && tags == start + parts[..i]
        invariant forall front :: old(Agrees(front)) && inBracket ==> Agrees(front)
      {
        assert start + parts[..i + 1] == (start + parts[..i]) + [parts[i]];
        PushPart(parts[i], inBracket);
        i := i + 1;
      }
      assert parts[..i] == parts;
    }

    method PushPart(part: string, inBracket: bool)
      modifies this
      ensures tags == old(tags) + [part]
      ensures forall front :: old(Agrees(front)) && inBracket ==> Agrees(front)
    {
      hide IsSequence, IsVersion, HasKind, VersionNumber, VersionIn, LastOfKind, Lower;
      var lower := Lower(part);
      if lower == "patch" {
        hasPatch := true;
      } else if lower == "rfc" {
        hasRfc := true;
      } else if lower == "re" || lower == "res" {
        hasResponse := true;
      } else if lower == "fw" || lower == "fwd" || lower == "forward" {
        hasForward := true;
      } else if inBracket && IsVersion(part) {
        version := VersionNumber(part);
      } else if IsSequence(part) {
        sequence := Some(part);
      }
      ReadingsSnoc(tags, part);
      tags := tags + [part];
    }

    method PushColonTag(name: string)
      requires KindOf(name) in [Response, Forward]
      modifies this
      ensures tags == old(tags) + [name]
      ensures forall front :: old(Agrees(front)) ==> Agrees(front)
    {
      hide KindOf, HasKind, VersionNumber, VersionIn, LastOfKind;
      if KindOf(name) == Response {
        hasResponse := true;
      } else {
        hasForward := true;
      }
      ReadingsSnoc(tags, name);
      tags := tags + [name];
    }

    /** The word `patch` in front of the subject; it is a tag of its own only without brackets. */
    method PushPatchWord(word: string, hasBrackets: bool)
      requires KindOf(word) == Patch
      modifies this
      ensures tags == old(tags) + if hasBrackets then [] else [word]
      ensures old(Agrees(false)) ==> Agrees(true)
    {
      hide KindOf, HasKind, VersionNumber, VersionIn, LastOfKind;
      hasPatch := true;
      if !hasBrackets {
        ReadingsSnoc(tags, word);
        tags := tags + [word];
      }
    }

    /** All tags of a bracket group. */
    method PushGroup(content: string)
      modifies this
      ensures tags == old(tags) + GroupTags(content)
      ensures forall front :: old(Agrees(front)) ==> Agrees(front)
    {
      hide Agrees, SplitGlued, Words, WithoutBrackets, TrimDots;
      var words := Words(WithoutBrackets(content));
      ghost var start := tags;
      var i := 0;
      assert words[..0] == [];
      while i < |words|
        invariant i <= |words| && tags == start + TagsOfWords(words[..i])
        invariant forall front :: old(Agrees(front)) ==> Agrees(front)
      {
        var token := if EndsWith(words[i], ":") then words[i][..|words[i]| - 1] else words[i];
        token := TrimDots(token);
        TagsOfWordsSnoc(words, i);
        if token != [] {
          PushTag(token, true);
        }
        i := i + 1;
      }
      assert words[..i] == words;
    }
  }

  function VersionIn(tags: seq<string>): Option<nat> {
    var last := LastOfKind(tags, Version);
    if last.None? then None else LastIsVersion(tags); VersionNumber(last.value)
  }

  lemma LastIsVersion(tags: seq<string>)
    requires LastOfKind(tags, Version).Some?
    ensures IsVersion(LastOfKind(tags, Version).value)
  {
    hide Lower, IsSequence, IsVersion;
    LastOfKindIsLast(tags, Version);
  }

  lemma HasKindSnoc(tags: seq<string>, tag: string, k: Kind)
    ensures HasKind(tags + [tag], k) <==> HasKind(tags, k) || KindOf(tag) == k
  {
    hide KindOf;
    var all := tags + [tag];
    assert forall i :: 0 <= i < |tags| ==> all[i] == tags[i];
    assert all[|tags|] == tag;
  }

  lemma ReadingsSnoc(tags: seq<string>, tag: string)
    ensures forall k :: HasKind(tags + [tag], k) <==> HasKind(tags, k) || KindOf(tag) == k
    ensures forall k :: LastOfKind(tags + [tag], k) ==
                        if KindOf(tag) == k then Some(tag) else LastOfKind(tags, k)
    ensures IsVersion(tag) && KindOf(tag) == Version ==> VersionIn(tags + [tag]) == VersionNumber(tag)
    ensures KindOf(tag) != Version ==> VersionIn(tags + [tag]) == VersionIn(tags)
  {
    hide KindOf, HasKind, VersionNumber;
    assert (tags + [tag])[..|tags|] == tags;
    forall k ensures HasKind(tags + [tag], k) <==> HasKind(tags, k) || KindOf(tag) == k {
      HasKindSnoc(tags, tag, k);
    }
  }
}
