/** Subjects put together from tags and a title, and what is read back off them. */
module SubjectRoundTrip {
  import opened Prelude
  import opened Text
  import opened Decimal
  import opened SubjectTokens
  import opened SubjectTags
  import opened SubjectTheorems

  // ----- between the brackets

  /** A token that stands for itself: visible, without brackets, not ending in a dot or a colon. */
  ghost predicate IsClean(token: string) {
    && token != "" && (forall i :: 0 <= i < |token| ==> !IsWhitespace(token[i]))
    && '[' !in token && ']' !in token && Last(token) != '.' && Last(token) != ':'
  }

  /** Tokens with white space behind each. */
  function Spaced(tokens: seq<string>, blanks: seq<string>): string
    requires |tokens| == |blanks|
  {
    if tokens == [] then "" else tokens[0] + blanks[0] + Spaced(tokens[1..], blanks[1..])
  }

  /** What the tokens stand for, one after the other: themselves, or the parts glued together in them. */
  function TagsOfTokens(tokens: seq<string>): seq<string> {
    if tokens == [] then [] else TagsOfTokens(tokens[..|tokens| - 1]) + SplitGlued(Last(tokens))
  }

  lemma {:induction false} WithoutBracketsIs(s: string)
    requires '[' !in s && ']' !in s
    ensures WithoutBrackets(s) == s
  {
    if s != "" {
      WithoutBracketsIs(s[1..]);
      assert s[0] in s && s == [s[0]] + s[1..];
    }
  }

  lemma CleanToken(token: string)
    requires IsClean(token)
    ensures TokenOf(token) == token && WordTags(token) == SplitGlued(token)
  {
    hide IsWhitespace, SplitGlued;
    assert token[|token| - 1..] == [Last(token)];
  }

  /** The first word of a text that starts with one. */
  lemma FirstWordIs(word: string, blank: string, rest: string)
    requires word != "" && (forall i :: 0 <= i < |word| ==> !IsWhitespace(word[i]))
    requires AllWhitespace(blank) && (blank != "" || rest == "")
    ensures Words(word + blank + rest) == [word] + Words(blank + rest)
  {
    hide IsWhitespace;
    var s := word + blank + rest;
    assert s[0] == word[0] && s[..0] == "";
    LeadingWhitespaceIs(s, 0);
    assert TrimStart(s) == s;
    WordLengthIs(s, |word|);
    assert s[..|word|] == word && s[|word|..] == blank + rest;
  }

  lemma {:induction false} WordLengthIs(s: string, n: nat)
    requires n <= |s| && (forall i :: 0 <= i < n ==> !IsWhitespace(s[i])) && (n < |s| ==> IsWhitespace(s[n]))
    ensures WordLength(s) == n
  {
    hide IsWhitespace;
    if n > 0 {
      WordLengthIs(s[1..], n - 1);
    }
  }

  lemma WordsSkipBlank(blank: string, rest: string)
    requires AllWhitespace(blank)
    ensures Words(blank + rest) == Words(rest)
  {
    hide IsWhitespace;
    var s, n := blank + rest, LeadingWhitespace(rest);
    assert s[..|blank| + n] == blank + rest[..n];
    assert |blank| + n < |s| ==> s[|blank| + n] == rest[n];
    LeadingWhitespaceIs(s, |blank| + n);
    assert TrimStart(s) == TrimStart(rest);
  }

  lemma {:induction false} WordsOfSpaced(tokens: seq<string>, blanks: seq<string>)
    requires |tokens| == |blanks|
    requires forall i :: 0 <= i < |tokens| ==> IsClean(tokens[i]) && blanks[i] != "" && AllWhitespace(blanks[i])
    ensures Words(Spaced(tokens, blanks)) == tokens
  {
    hide Words, IsWhitespace, AllWhitespace;
    if tokens == [] {
      NoWords();
    } else {
      var rest := Spaced(tokens[1..], blanks[1..]);
      WordsOfSpaced(tokens[1..], blanks[1..]);
      FirstWordIs(tokens[0], blanks[0], rest);
      WordsSkipBlank(blanks[0], rest);
      assert tokens == [tokens[0]] + tokens[1..];
    }
  }

  lemma NoWords()
    ensures Words("") == []
  {
  }

  lemma {:induction false} SpacedHasNoBrackets(tokens: seq<string>, blanks: seq<string>)
    requires |tokens| == |blanks|
    requires forall i :: 0 <= i < |tokens| ==> IsClean(tokens[i]) && AllWhitespace(blanks[i])
    ensures '[' !in Spaced(tokens, blanks) && ']' !in Spaced(tokens, blanks)
  {
    hide IsWhitespace, AllWhitespace;
    if tokens != [] {
      SpacedHasNoBrackets(tokens[1..], blanks[1..]);
      BlankHasNoBrackets(blanks[0]);
    }
  }

  lemma BlankHasNoBrackets(blank: string)
    requires AllWhitespace(blank)
    ensures '[' !in blank && ']' !in blank && '"' !in blank
  {
  }

  lemma {:induction false} TagsOfClean(tokens: seq<string>)
    requires forall i :: 0 <= i < |tokens| ==> IsClean(tokens[i])
    ensures TagsOfWords(tokens) == TagsOfTokens(tokens)
  {
    hide WordTags, SplitGlued, IsWhitespace, TagsOfWords;
    if tokens == [] {
      NoTags();
    } else {
      var n := |tokens| - 1;
      TagsOfClean(tokens[..n]);
      TagsOfWordsSnoc(tokens, n);
      CleanToken(tokens[n]);
      assert tokens[..n + 1] == tokens;
    }
  }

  lemma NoTags()
    ensures TagsOfWords([]) == []
  {
  }

  /** A group of tokens with white space between them gives exactly the tags they stand for, in order. */
  lemma GroupRoundTrip(left: string, tokens: seq<string>, blanks: seq<string>)
    requires |tokens| == |blanks| && AllWhitespace(left)
    requires forall i :: 0 <= i < |tokens| ==> IsClean(tokens[i]) && blanks[i] != "" && AllWhitespace(blanks[i])
    ensures GroupTags(left + Spaced(tokens, blanks)) == TagsOfTokens(tokens)
  {
    hide Words, TagsOfWords, WithoutBrackets, IsClean, AllWhitespace;
    var s := Spaced(tokens, blanks);
    SpacedHasNoBrackets(tokens, blanks);
    BlankHasNoBrackets(left);
    WithoutBracketsIs(left + s);
    WordsSkipBlank(left, s);
    WordsOfSpaced(tokens, blanks);
    TagsOfClean(tokens);
  }

  // ----- behind the tags

  lemma {:induction false} StripAll(dropped: string, c: char, rest: string)
    requires AllOf(dropped, c) && (rest != "" ==> rest[0] != c)
    ensures StripLeading(dropped + rest, c) == rest
  {
    var s := dropped + rest;
    if dropped == "" {
      assert s == rest;
    } else {
      assert s[1..] == dropped[1..] + rest;
      StripAll(dropped[1..], c, rest);
    }
  }

  /** The title is kept as it is; white space, quotes and then closing brackets in front of it, and
      white space at its end, are not. */
  lemma TailOfTitle(left: string, quotes: string, brackets: string, title: string, right: string)
    requires AllWhitespace(left) && AllWhitespace(right) && AllOf(quotes, '"') && AllOf(brackets, ']')
    requires Tight(title) && title[0] != '"' && title[0] != ']'
    ensures Tail(left + (quotes + brackets + title) + right) == title
  {
    hide IsWhitespace, AllWhitespace;
    var core := quotes + brackets + title;
    QuotesAreVisible();
    assert core[0] == (if quotes != "" then quotes[0] else if brackets != "" then brackets[0] else title[0]);
    assert Last(core) == Last(title);
    TrimPadded(left, core, right);
    assert core == quotes + (brackets + title);
    assert (brackets + title)[0] == if brackets != "" then brackets[0] else title[0];
    StripAll(quotes, '"', brackets + title);
    StripAll(brackets, ']', title);
    TrimOfTight(title);
  }

  lemma QuotesAreVisible()
    ensures !IsWhitespace('"') && !IsWhitespace(']') && !IsWhitespace('[')
  {
  }

  // ----- whole subjects

  /** A title that no tag can be mistaken for. */
  predicate IsTitle(title: string) {
    Tight(title) && title[0] !in ['[', ']', '"']
  }

  /** The fields that can be read off the tags. */
  function ReadingOf(tags: seq<string>, untagged: string): Reading
  {
    Reading(LastOfKind(tags, Patch).Some?, LastOfKind(tags, Rfc).Some?, LastOfKind(tags, Response).Some?,
            LastOfKind(tags, Forward).Some?, VersionIn(tags), LastOfKind(tags, Sequence), tags, untagged)
  }

  lemma ReadOff(tags: seq<string>)
    ensures forall k :: LastOfKind(tags, k).Some? <==> HasKind(tags, k)
  {
    hide KindOf, HasKind, LastOfKind;
    forall k ensures LastOfKind(tags, k).Some? <==> HasKind(tags, k) {
      LastOfKindIsLast(tags, k);
    }
  }

  /** Behind the tags comes the title, and no further group. */
  lemma NoGroupBehind(s: string, start: nat, blank: string, title: string)
    requires start <= |s| && s[start..] == blank + title && AllWhitespace(blank) && IsTitle(title)
    ensures forall i: nat :: !GroupFollows(s, start, i)
  {
    hide IsWhitespace, IsAlphanumeric;
    QuotesAreVisible();
    BlankHasNoBrackets(blank);
    forall i | start <= i < |s| && s[i] == '[' ensures !AllWhitespace(s[start..i]) {
      assert s[i] == s[start..][i - start] == (blank + title)[i - start];
      assert i - start > |blank|;
      assert s[start..i][|blank|] == s[start..][|blank|] == title[0];
    }
  }

  lemma FrontIs(front: string, rest: string)
    requires '[' !in front && '"' !in front && (rest != "" ==> rest[0] == '[')
    ensures FrontOf(front + rest) == front
  {
    var s := front + rest;
    assert forall j :: 0 <= j < |front| ==> s[j] == front[j] && front[j] in front;
    var bracket := FindChar(s, '[', 0);
    if rest != "" {
      assert s[|front|] == '[';
      assert s[..|front|] == front;
    } else {
      assert s == front;
    }
  }

  /** One group and a title: the tags are those of the group, the rest of the subject is the title. */
  lemma GroupAndTitle(content: string, blank: string, title: string)
    requires '[' !in content && ']' !in content && AllWhitespace(blank) && IsTitle(title)
    ensures var s := "[" + content + "]" + blank + title;
      IsReading(s, ReadingOf(GroupTags(content), title), [Group(content)])
  {
    hide IsWhitespace, AllWhitespace, GroupTags, KindOf, HasKind, LastOfKind, VersionIn, Tail, FrontOf, GroupFollows,
      ColonTagFollows, PatchInFront, Tight;
    var zone, tags := [Group(content)], GroupTags(content);
    var s := "[" + content + "]" + blank + title;
    assert s == "" + s && s[0] == '[';
    FrontIs("", s);
    NothingInFront();
    OneGroup(content);
    assert s[|content| + 2..] == blank + title;
    NoGroupBehind(s, |content| + 2, blank, title);
    TitleBehind(blank, title);
    ReadOff(tags);
    assert IsTagZone(s, zone);
  }

  lemma OneGroup(content: string)
    requires ']' !in content
    ensures var zone := [Group(content)];
      && IsZone(zone) && ZoneText(zone) == "[" + content + "]" && ColonPart(zone) == "" && !PatchLeads(zone)
      && forall b :: ZoneTags(zone, b) == GroupTags(content)
  {
    hide GroupTags;
    var zone := [Group(content)];
    assert zone[..0] == [];
  }

  lemma NothingInFront()
    ensures !PatchInFront("") && forall i: nat :: !ColonTagFollows("", 0, i)
  {
  }

  lemma TitleBehind(blank: string, title: string)
    requires AllWhitespace(blank) && IsTitle(title)
    ensures Tail(blank + title) == title != ""
  {
    hide IsWhitespace, Tail;
    assert blank + ("" + "" + title) + "" == blank + title;
    TailOfTitle(blank, "", "", title, "");
  }

  /** A response or forward tag in front: it becomes the first tag, and stays in the text. */
  lemma ColonGroupAndTitle(name: string, gap: string, content: string, blank: string, title: string)
    requires KindOf(name) in [Response, Forward] && gap != "" && AllWhitespace(gap)
    requires '[' !in content && ']' !in content && AllWhitespace(blank) && IsTitle(title)
    ensures var s := name + ":" + gap + ("[" + content + "]" + blank + title);
      IsReading(s, ReadingOf([name] + GroupTags(content), name + ": " + title),
                [ColonTag(name), Blank(gap), Group(content)])
  {
    hide IsWhitespace, AllWhitespace, GroupTags, KindOf, HasKind, LastOfKind, VersionIn, Tail, Tight, IsTagZone,
      ZoneText, ColonPart, PatchLeads, ZoneTags, IsZone;
    var zone, tags := [ColonTag(name), Blank(gap), Group(content)], [name] + GroupTags(content);
    var front, rest := name + ":" + gap, "[" + content + "]" + blank + title;
    var s := front + rest;
    ColonTagZone(name, gap, content, blank, title);
    ColonZone(name, gap, content);
    assert s[|front| + |content| + 2..] == blank + title;
    TitleBehind(blank, title);
    ReadOff(tags);
    assert Joined(name + ":", title) == name + ": " + title;
  }

  lemma ColonTagZone(name: string, gap: string, content: string, blank: string, title: string)
    requires KindOf(name) in [Response, Forward] && gap != "" && AllWhitespace(gap)
    requires '[' !in content && ']' !in content && AllWhitespace(blank) && IsTitle(title)
    ensures IsTagZone(name + ":" + gap + ("[" + content + "]" + blank + title),
                      [ColonTag(name), Blank(gap), Group(content)])
  {
    hide IsWhitespace, AllWhitespace, KindOf, FrontOf, GroupFollows, ColonTagFollows, PatchInFront, Tight, IsZone,
      ZoneText, ColonPart, PatchLeads, ZoneTags;
    var zone := [ColonTag(name), Blank(gap), Group(content)];
    var front, rest := name + ":" + gap, "[" + content + "]" + blank + title;
    var s := front + rest;
    ColonFront(name, gap);
    FrontIs(front, rest);
    ColonZone(name, gap, content);
    var n := |front| + |content| + 2;
    assert ZoneText(zone) == s[..n];
    assert s[n..] == blank + title;
    NoGroupBehind(s, n, blank, title);
  }

  lemma ColonFront(name: string, gap: string)
    requires KindOf(name) in [Response, Forward] && AllWhitespace(gap)
    ensures var front, end := name + ":" + gap, |name| + 1;
      && '[' !in front && '"' !in front && !PatchInFront(front)
      && forall i: nat :: !ColonTagFollows(front, end, i)
  {
    hide KindOf, IsWhitespace, NameEnd;
    var front := name + ":" + gap;
    NameIsLetters(name);
    BlankHasNoBrackets(gap);
    forall i: nat | ColonTagAt(front, i) ensures i <= |name| {
      if i > |name| {
        assert front[i] == gap[i - |name| - 1];
        LetterIsNoBlank(front[i]);
      }
    }
    if |front| >= 5 && KindOf(front[..5]) == Patch {
      FirstLetter(front[..5]);
      FirstLetter(name);
    }
  }

  lemma LetterIsNoBlank(c: char)
    ensures IsLetter(c) ==> !IsWhitespace(c)
  {
  }

  lemma ZoneOfThree(a: Piece, b: Piece, c: Piece, hasBrackets: bool)
    ensures ZoneText([a, b, c]) == PieceText(a) + PieceText(b) + PieceText(c) && ZoneText([a]) == PieceText(a)
    ensures ZoneTags([a, b, c], hasBrackets)
         == PieceTags(a, hasBrackets) + PieceTags(b, hasBrackets) + PieceTags(c, hasBrackets)
  {
    hide PieceText, PieceTags, ZoneText, ZoneTags;
    EmptyZone();
    ZoneSnoc([], a, hasBrackets);
    ZoneSnoc([a], b, hasBrackets);
    ZoneSnoc([a, b], c, hasBrackets);
    assert [] + [a] == [a] && [a] + [b] == [a, b] && [a, b] + [c] == [a, b, c];
    assert [] + PieceText(a) == PieceText(a) && [] + PieceTags(a, hasBrackets) == PieceTags(a, hasBrackets);
  }

  lemma ColonZone(name: string, gap: string, content: string)
    requires KindOf(name) in [Response, Forward] && gap != "" && AllWhitespace(gap) && ']' !in content
    ensures var zone := [ColonTag(name), Blank(gap), Group(content)];
      && IsZone(zone) && ZoneText(zone) == name + ":" + gap + ("[" + content + "]")
      && ColonPart(zone) == name + ":" && !PatchLeads(zone)
      && forall b :: ZoneTags(zone, b) == [name] + GroupTags(content)
  {
    hide GroupTags, KindOf, IsWhitespace, AllWhitespace, ZoneText, ZoneTags;
    var a, b, c := ColonTag(name), Blank(gap), Group(content);
    var zone := [a, b, c];
    ZoneOfThree(a, b, c, true);
    ZoneOfThree(a, b, c, false);
    assert [name] + [] == [name];
    assert zone[..2] == [a, b] && [a, b][..1] == [a];
    assert ColonPart([a]) == ZoneText([a]) && ColonPart([a, b]) == ColonPart([a]);
    IsZoneOfThree(name, gap, content);
  }

  lemma IsZoneOfThree(name: string, gap: string, content: string)
    requires KindOf(name) in [Response, Forward] && gap != "" && AllWhitespace(gap) && ']' !in content
    ensures IsZone([ColonTag(name), Blank(gap), Group(content)])
  {
    hide KindOf, AllWhitespace;
  }

  /** Whatever is read off such a subject is this: there is no other reading. */
  lemma SubjectRoundTrip(name: string, gap: string, content: string, blank: string, title: string,
                         r: Reading, zone: seq<Piece>)
    requires KindOf(name) in [Response, Forward] && gap != "" && AllWhitespace(gap)
    requires '[' !in content && ']' !in content && AllWhitespace(blank) && IsTitle(title)
    ensures IsReading("[" + content + "]" + blank + title, r, zone) ==> r == ReadingOf(GroupTags(content), title)
    ensures IsReading(name + ":" + gap + ("[" + content + "]" + blank + title), r, zone) ==>
      r == ReadingOf([name] + GroupTags(content), name + ": " + title)
  {
    hide IsReading, GroupTags, KindOf, IsTitle, AllWhitespace, ReadingOf;
    var plain := "[" + content + "]" + blank + title;
    var tagged := name + ":" + gap + plain;
    GroupAndTitle(content, blank, title);
    ColonGroupAndTitle(name, gap, content, blank, title);
    if IsReading(plain, r, zone) {
      ReadingIsUnique(plain, r, zone, ReadingOf(GroupTags(content), title), [Group(content)]);
    }
    if IsReading(tagged, r, zone) {
      ReadingIsUnique(tagged, r, zone, ReadingOf([name] + GroupTags(content), name + ": " + title),
                      [ColonTag(name), Blank(gap), Group(content)]);
    }
  }

  // ----- the names of tags

  /** The words that are tags, in any case. */
  lemma TagNames(tag: string)
    ensures Lower(tag) == "patch" <==> KindOf(tag) == Patch
    ensures Lower(tag) == "rfc" <==> KindOf(tag) == Rfc
    ensures Lower(tag) == "re" || Lower(tag) == "res" <==> KindOf(tag) == Response
    ensures Lower(tag) == "fw" || Lower(tag) == "fwd" || Lower(tag) == "forward" <==> KindOf(tag) == Forward
  {
    hide IsVersion, IsSequence;
  }

  /** A version is a `v` and a number, of whatever length; it counts when it fits 16 bits. */
  lemma VersionTag(v: char, n: nat)
    requires v == 'v' || v == 'V'
    ensures KindOf([v] + Render(n)) == Version
    ensures IsVersion([v] + Render(n)) && VersionNumber([v] + Render(n)) == if n <= 65535 then Some(n) else None
  {
    var tag := [v] + Render(n);
    ValueOfRender(n);
    assert tag[1..] == Render(n);
    assert Lower(tag)[1] == LowerChar(tag[1]) == tag[1] == Render(n)[0];
  }

  /** A sequence number is a number, a slash, a number. */
  lemma SequenceTag(i: nat, n: nat)
    ensures KindOf(Render(i) + "/" + Render(n)) == Sequence
  {
    hide Render, SplitOnce, KindOf;
    var a, b := Render(i), Render(n);
    NumberHasNoSlash(a);
    OneCharSeparator(a, '/');
    SplitOnceAt(a, "/", b);
    DigitInFront(a + "/" + b);
  }

  lemma DigitInFront(tag: string)
    requires IsSequence(tag) && tag != "" && IsDigit(tag[0])
    ensures KindOf(tag) == Sequence
  {
    hide IsSequence;
    assert Lower(tag)[0] == LowerChar(tag[0]) == tag[0];
  }

  lemma NumberHasNoSlash(digits: string)
    requires AllDigits(digits)
    ensures '/' !in digits
  {
  }

  // ----- what tokens are freed of

  /** Characters no known part begins with, and no version goes on with. */
  predicate IsJunk(junk: string) {
    forall i :: 0 <= i < |junk| ==> LowerChar(junk[i]) !in "prv" && !IsDigit(junk[i])
  }

  /** Known parts with junk behind each. */
  function WithJunk(parts: seq<string>, junk: seq<string>): string
    requires |parts| == |junk|
  {
    if parts == [] then "" else parts[0] + junk[0] + WithJunk(parts[1..], junk[1..])
  }

  lemma {:induction false} JunkIsDropped(junk: string, rest: string)
    requires IsJunk(junk)
    ensures GluedParts(junk + rest) == GluedParts(rest)
  {
    if junk == "" {
      assert junk + rest == rest;
    } else {
      var s := junk + rest;
      assert s[1..] == junk[1..] + rest && s[0] == junk[0];
      NoPartStarts(s);
      JunkIsDropped(junk[1..], rest);
    }
  }

  lemma NoPartStarts(s: string)
    requires s != "" && LowerChar(s[0]) !in "prv"
    ensures PartLength(s) == 0
  {
    hide DigitRun;
    FirstLowers(s, 5);
    FirstLowers(s, 3);
  }

  /** Known parts are found among junk: `PATCH/RFC` stands for `PATCH` and `RFC`. */
  lemma {:induction false} PartsAmongJunk(parts: seq<string>, junk: seq<string>)
    requires |parts| == |junk| && forall i :: 0 <= i < |parts| ==> IsPart(parts[i]) && IsJunk(junk[i])
    ensures GluedParts(WithJunk(parts, junk)) == parts
    ensures WithJunk(parts, junk) != "" ==> !IsDigit(WithJunk(parts, junk)[0])
  {
    if parts != [] {
      hide PartLength, IsPart;
      var rest := WithJunk(parts[1..], junk[1..]);
      PartsAmongJunk(parts[1..], junk[1..]);
      PartNonEmpty(parts[0]);
      assert junk[0] + rest != "" ==> (junk[0] + rest)[0] == if junk[0] != "" then junk[0][0] else rest[0];
      PartInFront(parts[0], junk[0] + rest);
      JunkIsDropped(junk[0], rest);
      var s := parts[0] + (junk[0] + rest);
      assert WithJunk(parts, junk) == s;
      assert s[..|parts[0]|] == parts[0] && s[|parts[0]|..] == junk[0] + rest;
      assert parts == [parts[0]] + parts[1..];
    }
  }

  /** Dots at the end of a word, and one colon behind them, are not part of the token; brackets never
      are. */
  lemma TokenEndings(token: string, dots: string)
    requires IsClean(token) && AllOf(dots, '.')
    ensures TokenOf(token + dots) == token && TokenOf(token + dots + ":") == token
  {
    hide IsWhitespace;
    var word := token + dots;
    DotsAreTrimmed(token, dots);
    assert (word + ":")[..|word|] == word && (word + ":")[|word|..] == ":";
    assert word[|word| - 1..] == [Last(word)];
    assert Last(word) == if dots == "" then Last(token) else Last(dots);
  }

  lemma {:induction false} DotsAreTrimmed(token: string, dots: string)
    requires token != "" && Last(token) != '.' && AllOf(dots, '.')
    ensures TrimDots(token + dots) == token
  {
    var word := token + dots;
    if dots == "" {
      assert word == token;
    } else {
      assert word[..|word| - 1] == token + dots[..|dots| - 1];
      DotsAreTrimmed(token, dots[..|dots| - 1]);
    }
  }

  lemma {:induction false} NoBracketsLeft(s: string)
    ensures '[' !in WithoutBrackets(s) && ']' !in WithoutBrackets(s)
    ensures |WithoutBrackets(s)| == |s| <==> '[' !in s && ']' !in s
    ensures |WithoutBrackets(s)| <= |s|
  {
    if s != "" {
      NoBracketsLeft(s[1..]);
      assert s == [s[0]] + s[1..];
    }
  }

  // ----- the word patch in front

  /** It stands alone, and in front of something that does not go on with the word. */
  lemma PatchWordForms(word: string, c: char, rest: string)
    requires KindOf(word) == Patch
    ensures PatchInFront(word)
    ensures 'a' <= c <= 'z' || 'A' <= c <= 'Z' || '0' <= c <= '9' || c == '_' ==> !PatchInFront(word + [c] + rest)
    ensures c == ' ' || c == ':' || c == '-' || c == '/' ==> PatchInFront(word + [c] + rest)
  {
    hide KindOf;
    PatchWordLength(word);
    assert word[..5] == word && (word + [c] + rest)[..5] == word;
  }

  /** The word and a title, without brackets: the word is the only tag, and the title is kept. */
  lemma PatchAndTitle(word: string, gap: string, title: string, r: Reading, zone: seq<Piece>)
    requires KindOf(word) == Patch && gap != "" && AllWhitespace(gap) && IsTitle(title) && '[' !in title
    requires IsReading(word + gap + title, r, zone)
    ensures r.tags == [word] && r.hasPatch && !r.hasRfc && !r.hasResponse && !r.hasForward
    ensures r.version == None && r.sequence == None && r.untagged == title
  {
    hide IsWhitespace, AllWhitespace, KindOf, Tail, IsTagZone, Tight, ZoneTags, ZoneText, ColonPart, HasKind, VersionIn,
      LastOfKind;
    var s := word + gap + title;
    PatchTagZone(word, gap, title);
    ZoneIsUnique(s, zone, [PatchWord(word)]);
    BlankHasNoBrackets(gap);
    PatchHasNoBrackets(word);
    assert '[' !in s;
    PatchZone(word, false);
    assert s[|word|..] == gap + title;
    TitleBehind(gap, title);
    OnlyTag(word);
  }

  lemma OnlyTag(word: string)
    requires KindOf(word) == Patch
    ensures forall k :: HasKind([word], k) <==> k == Patch
    ensures VersionIn([word]) == None && LastOfKind([word], Sequence) == None
  {
    hide KindOf;
    assert [word][..0] == [] && [word][0] == word;
    assert LastOfKind([word], Version) == LastOfKind([word][..0], Version) == None;
  }

  lemma PatchHasNoBrackets(word: string)
    requires KindOf(word) == Patch
    ensures '[' !in word && '"' !in word && !IsWhitespace(word[0])
  {
    hide IsVersion, IsSequence;
    PatchWordLength(word);
    assert forall i :: 0 <= i < |word| ==> LowerChar(word[i]) == Lower(word)[i];
    forall i | 0 <= i < |word| ensures word[i] != '[' && word[i] != '"' {
      assert Lower(word)[i] in "patch";
    }
    assert Lower(word)[0] == 'p';
  }

  lemma PatchTagZone(word: string, gap: string, title: string)
    requires KindOf(word) == Patch && gap != "" && AllWhitespace(gap) && IsTitle(title) && '[' !in title
    ensures IsTagZone(word + gap + title, [PatchWord(word)])
  {
    hide IsWhitespace, AllWhitespace, KindOf, Tight, IsZone, ZoneText, ColonPart, ZoneTags, GroupFollows,
      ColonTagFollows;
    var s, zone := word + gap + title, [PatchWord(word)];
    PatchWordLength(word);
    PatchHasNoBrackets(word);
    BlankHasNoBrackets(gap);
    PatchZone(word, false);
    var front := FrontOf(s);
    FrontStartsWith(s, word + gap);
    assert front[..5] == word && front[5] == gap[0];
    GapEndsWord(gap);
    assert s[|word|..] == gap + title;
    NoGroupBehind(s, |word|, gap, title);
    NoColonBehind(front, word, gap[0]);
  }

  lemma GapEndsWord(gap: string)
    requires gap != "" && AllWhitespace(gap)
    ensures !IsWordChar(gap[0]) && gap[0] != '-' && gap[0] != ':'
  {
    assert IsWhitespace(gap[0]);
  }

  lemma FrontStartsWith(s: string, start: string)
    requires start <= s && '[' !in start && '"' !in start
    ensures start <= FrontOf(s)
  {
    var bracket := FindChar(s, '[', 0);
    var raw := if bracket.None? then s else s[..bracket.value];
    assert bracket.Some? ==> bracket.value >= |start| by {
      assert forall j :: 0 <= j < |start| ==> s[j] == start[j] && start[j] in start;
    }
    assert start <= raw;
    assert forall j :: 0 <= j < |start| ==> raw[j] == start[j] && start[j] in start;
  }

  /** No colon tag follows where a word without a colon stands. */
  lemma NoColonBehind(front: string, word: string, c: char)
    requires KindOf(word) == Patch && |front| > 5 && front[..5] == word && front[5] == c
    requires !IsWordChar(c) && c != '-' && c != ':'
    ensures var none := 0; forall i: nat :: !ColonTagFollows(front, none, i)
  {
    hide KindOf, IsWhitespace, NameEnd;
    var none := 0;
    PatchWordLength(word);
    PatchHasNoBrackets(word);
    NameEndsAtWord(front, word);
    assert front[0] == word[0];
    forall i: nat | 0 < i <= |front| ensures !AllWhitespace(front[none..i]) {
      assert front[none..i][0] == front[0];
    }
  }

  lemma NameEndsAtWord(front: string, word: string)
    requires KindOf(word) == Patch && |front| > 5 && front[..5] == word
    requires !IsWordChar(front[5]) && front[5] != '-'
    ensures NameEnd(front, 0) == 5
  {
    hide IsVersion, IsSequence;
    PatchWordLength(word);
    forall i | 0 <= i < 5 ensures IsLetter(front[i]) {
      assert front[i] == word[i] && LowerChar(word[i]) == Lower(word)[i] && Lower(word)[i] in "patch";
    }
    NameEndIs(front, 0, 5);
  }

  lemma {:induction false} NameEndIs(s: string, i: nat, j: nat)
    requires i <= j < |s| && (forall k :: i <= k < j ==> IsWordChar(s[k])) && !IsWordChar(s[j]) && s[j] != '-'
    ensures NameEnd(s, i) == j
    decreases j - i
  {
    if i < j {
      NameEndIs(s, i + 1, j);
    }
  }
}
