/** Reading back a raw archive: one `.eml` file for each identifier, taken in path order. */
module RawThenParse {
  import opened Prelude
  import opened Text
  import opened EmailStore
  import opened EmailReader
  import opened ArchiveThenParse
  import Decimal
  import AW = ArchiveWriter

  // ----- one file

  /** The parser takes the file of an email for one, and under the identifier of the email, if and only
      if that is not empty. */
  lemma EmlFileIsRead(e: EmailData)
    ensures IsEmailFile(AW.EmlName(e)) <==> e.emailId != ""
    ensures e.emailId != "" ==> Extension(AW.EmlName(e)) == "eml" && Stem(AW.EmlName(e)) == e.emailId
  {
    var name := AW.EmlName(e);
    if e.emailId != "" {
      assert name == e.emailId + "." + "eml";
      DotBeforeExtension(e.emailId, "eml");
      assert name[|e.emailId| + 1..] == "eml";
      assert Lower("eml") == "eml";
    } else {
      assert name == ".eml";
      assert DotOf(".eml"[..1]) == None;
      assert ".eml"[..3][..2][..1] == "." && ".eml"[..3][..2] == ".e" && ".eml"[..3] == ".em";
      assert DotOf(".eml").None?;
    }
  }

  /** The text of every `.eml` file can be read. */
  ghost predicate DecodesEml(eml: map<string, string>, contents: map<string, FileContent>) {
    forall n :: n in eml ==> n in contents && contents[n] == EmlText(Some(eml[n]))
  }

  function EmlNames(emails: seq<EmailData>): (names: seq<string>)
    ensures |names| == |emails| && forall i :: 0 <= i < |names| ==> names[i] == AW.EmlName(emails[i])
  {
    seq(|emails|, i requires 0 <= i < |emails| => AW.EmlName(emails[i]))
  }

  lemma ItemOfEml(e: EmailData, eml: map<string, string>, contents: map<string, FileContent>)
    requires DecodesEml(eml, contents) && e.emailId != "" && AW.EmlName(e) in eml && eml[AW.EmlName(e)] == e.content
    ensures ItemsOfFile(AW.EmlName(e), contents) == [Ok(e)]
  {
    hide AW.EmlName, Extension, Stem;
    EmlFileIsRead(e);
  }

  lemma {:induction false} ItemsOfEmls(emails: seq<EmailData>, eml: map<string, string>,
                                       contents: map<string, FileContent>)
    requires DecodesEml(eml, contents)
    requires forall i :: 0 <= i < |emails| ==>
      emails[i].emailId != "" && AW.EmlName(emails[i]) in eml && eml[AW.EmlName(emails[i])] == emails[i].content
    ensures ItemsOfFiles(EmlNames(emails), contents) == Oks(emails)
  {
    hide ItemsOfFile, AW.EmlName, DecodesEml;
    if emails != [] {
      ItemOfEml(emails[0], eml, contents);
      ItemsOfEmls(emails[1..], eml, contents);
      assert EmlNames(emails)[1..] == EmlNames(emails[1..]);
    }
  }

  // ----- what the files hold

  ghost predicate DistinctIds(emails: seq<EmailData>) {
    forall i, j :: 0 <= i < j < |emails| ==> emails[i].emailId != emails[j].emailId
  }

  /** The files are those of these emails, each with its own identifier. */
  ghost predicate Holds(eml: map<string, string>, emails: seq<EmailData>) {
    && DistinctIds(emails)
    && (forall e :: e in emails ==> AW.EmlName(e) in eml && eml[AW.EmlName(e)] == e.content)
    && (forall n :: n in eml ==> exists e :: e in emails && n == AW.EmlName(e))
  }

  function Without(emails: seq<EmailData>, id: string): seq<EmailData> {
    if emails == [] then []
    else
      var older := Without(emails[..|emails| - 1], id);
      if Last(emails).emailId == id then older else older + [Last(emails)]
  }

  lemma {:induction false} WithoutDropsId(emails: seq<EmailData>, id: string)
    ensures forall e :: e in Without(emails, id) <==> e in emails && e.emailId != id
  {
    if emails != [] {
      WithoutDropsId(emails[..|emails| - 1], id);
      assert emails == emails[..|emails| - 1] + [Last(emails)];
    }
  }

  lemma {:induction false} WithoutStaysDistinct(emails: seq<EmailData>, id: string)
    requires DistinctIds(emails)
    ensures DistinctIds(Without(emails, id))
  {
    if emails != [] {
      var older, last := emails[..|emails| - 1], Last(emails);
      var kept := Without(older, id);
      WithoutStaysDistinct(older, id);
      WithoutDropsId(older, id);
      forall i | 0 <= i < |kept| ensures kept[i].emailId != last.emailId {
        assert kept[i] in kept;
        var j :| 0 <= j < |older| && older[j] == kept[i];
      }
    }
  }

  /** Of all archived emails, those whose identifier was not archived again later. */
  function Latest(emails: seq<EmailData>): seq<EmailData> {
    if emails == [] then []
    else Without(Latest(emails[..|emails| - 1]), Last(emails).emailId) + [Last(emails)]
  }

  /** One more file replaces the one of the same identifier. */
  lemma HoldsPush(eml: map<string, string>, emails: seq<EmailData>, e: EmailData)
    requires Holds(eml, emails)
    ensures Holds(eml[AW.EmlName(e) := e.content], Without(emails, e.emailId) + [e])
  {
    hide Without, AW.EmlName;
    var kept, after := Without(emails, e.emailId), eml[AW.EmlName(e) := e.content];
    WithoutDropsId(emails, e.emailId);
    WithoutStaysDistinct(emails, e.emailId);
    forall i | 0 <= i < |kept| ensures kept[i].emailId != e.emailId {
      assert kept[i] in kept;
    }
    forall x | x in kept ensures AW.EmlName(x) in after && after[AW.EmlName(x)] == x.content {
      AW.EmlNameInjective(x, e);
    }
    forall n | n in after ensures exists x :: x in kept + [e] && n == AW.EmlName(x) {
      if n == AW.EmlName(e) {
        assert e in kept + [e];
      } else {
        var x :| x in emails && n == AW.EmlName(x);
        AW.EmlNameInjective(x, e);
        assert x in kept + [e];
      }
    }
  }

  /** The raw store keeps exactly the latest email of every identifier. */
  lemma {:induction false} StoreHoldsLatest(emails: seq<EmailData>)
    ensures Holds(AW.EmlFiles(map[], emails), Latest(emails))
  {
    hide Holds, Without, AW.EmlName;
    if emails == [] {
      NothingHeld();
    } else {
      StoreHoldsLatest(emails[..|emails| - 1]);
      HoldsPush(AW.EmlFiles(map[], emails[..|emails| - 1]), Latest(emails[..|emails| - 1]), Last(emails));
    }
  }

  lemma NothingHeld()
    ensures Holds(map[], [])
  {
  }

  // ----- all files

  lemma {:induction false} DistinctAsSet(names: seq<string>, keys: set<string>)
    requires forall i, j :: 0 <= i < j < |names| ==> names[i] != names[j]
    requires forall n :: n in names <==> n in keys
    ensures multiset(names) == multiset(keys)
  {
    if names == [] {
      assert keys == {};
    } else {
      var older, last := names[..|names| - 1], Last(names);
      assert names == older + [last];
      DistinctAsSet(older, keys - {last});
      assert keys == (keys - {last}) + {last};
    }
  }

  lemma NamesAreKeys(eml: map<string, string>, emails: seq<EmailData>)
    requires Holds(eml, emails)
    ensures multiset(EmlNames(emails)) == multiset(eml.Keys)
  {
    hide AW.EmlName;
    var names := EmlNames(emails);
    forall i, j | 0 <= i < j < |names| ensures names[i] != names[j] {
      AW.EmlNameInjective(emails[i], emails[j]);
    }
    forall n ensures n in names <==> n in eml.Keys {
      if n in eml {
        var e :| e in emails && n == AW.EmlName(e);
        var i :| 0 <= i < |emails| && emails[i] == e;
        assert names[i] == n;
      }
    }
    DistinctAsSet(names, eml.Keys);
  }

  ghost predicate Identified(emails: seq<EmailData>) {
    forall e :: e in emails ==> e.emailId != ""
  }

  /** The files of a directory, in any order, give one email each, under the name's stem. */
  lemma NamesGiveIds(eml: map<string, string>, emails: seq<EmailData>, contents: map<string, FileContent>,
                     names: seq<string>)
    requires Holds(eml, emails) && Identified(emails) && DecodesEml(eml, contents)
    requires multiset(names) == multiset(eml.Keys) && ItemsOfFiles(names, contents) == Oks(emails)
    ensures names == EmlNames(emails)
  {
    hide ItemsOfFiles, DecodesEml, AW.EmlName;
    var read := EmailsBehind(names, eml, emails);
    ItemsOfEmls(read, eml, contents);
    assert EmlNames(read) == names;
    forall i | 0 <= i < |emails| ensures read[i] == emails[i] {
      assert Oks(read)[i] == Oks(emails)[i];
    }
  }

  /** The emails behind file names. */
  lemma EmailsBehind(names: seq<string>, eml: map<string, string>, emails: seq<EmailData>)
    returns (read: seq<EmailData>)
    requires Holds(eml, emails) && multiset(names) == multiset(eml.Keys)
    ensures |read| == |names| && forall i :: 0 <= i < |read| ==> read[i] in emails && AW.EmlName(read[i]) == names[i]
  {
    hide AW.EmlName;
    read := [];
    while |read| < |names|
      invariant |read| <= |names|
      invariant forall i :: 0 <= i < |read| ==> read[i] in emails && AW.EmlName(read[i]) == names[i]
    {
      var n := names[|read|];
      assert n in multiset(names);
      var e :| e in emails && n == AW.EmlName(e);
      read := read + [e];
    }
  }

  /** Reading back a raw archive: each email in its file comes out once, and in the given order if and
      only if their file names are in the order of paths. */
  lemma RawReadBack(eml: map<string, string>, emails: seq<EmailData>, contents: map<string, FileContent>,
                    listing: seq<string>)
    requires Holds(eml, emails) && Identified(emails) && DecodesEml(eml, contents)
    requires multiset(listing) == multiset(eml.Keys)
    ensures multiset(ItemsOfFiles(SortNames(listing), contents)) == multiset(Oks(emails))
    ensures ItemsOfFiles(SortNames(listing), contents) == Oks(emails) <==> Ascending(EmlNames(emails))
  {
    hide AW.EmlName, ItemsOfFiles, SortNames, Ascending, DecodesEml;
    NamesAreKeys(eml, emails);
    SortNamesSorted(listing);
    ItemsOfEmls(emails, eml, contents);
    ItemsMultiset(SortNames(listing), EmlNames(emails), contents);
    if Ascending(EmlNames(emails)) {
      AscendingUnique(SortNames(listing), EmlNames(emails));
    }
    if ItemsOfFiles(SortNames(listing), contents) == Oks(emails) {
      NamesGiveIds(eml, emails, contents, SortNames(listing));
    }
  }

  /** For whatever was archived: the latest email of every identifier comes out, once. */
  lemma RawRoundTrip(emails: seq<EmailData>, contents: map<string, FileContent>, listing: seq<string>)
    requires Identified(emails) && DecodesEml(AW.EmlFiles(map[], emails), contents)
    requires multiset(listing) == multiset(AW.EmlFiles(map[], emails).Keys)
    ensures multiset(ItemsOfFiles(SortNames(listing), contents)) == multiset(Oks(Latest(emails)))
    ensures ItemsOfFiles(SortNames(listing), contents) == Oks(Latest(emails)) <==> Ascending(EmlNames(Latest(emails)))
  {
    hide ItemsOfFiles, SortNames, Ascending, DecodesEml, Holds, EmlNames, Latest, AW.EmlFiles;
    StoreHoldsLatest(emails);
    LatestAmong(emails);
    RawReadBack(AW.EmlFiles(map[], emails), Latest(emails), contents, listing);
  }

  lemma {:induction false} LatestAmong(emails: seq<EmailData>)
    ensures forall e :: e in Latest(emails) ==> e in emails
  {
    if emails != [] {
      var older := emails[..|emails| - 1];
      LatestAmong(older);
      WithoutDropsId(Latest(older), Last(emails).emailId);
      assert emails == older + [Last(emails)];
    }
  }

  // ----- the order of names that are numbers

  /** The suffix changes nothing in the order of numbers: a dot sorts before every digit. */
  lemma {:induction false} SuffixKeepsOrder(a: string, b: string)
    requires Decimal.AllDigits(a) && Decimal.AllDigits(b)
    ensures LexLeq(a + ".eml", b + ".eml") <==> LexLeq(a, b)
  {
    var x, y := a + ".eml", b + ".eml";
    if a == [] || b == [] {
      LexTotal(".eml", ".eml");
      assert a == [] ==> x == ".eml";
      assert b == [] ==> y == ".eml";
      assert a != [] ==> x[0] == a[0] > '.';
      assert b != [] ==> y[0] == b[0] > '.';
    } else {
      assert x[1..] == a[1..] + ".eml" && y[1..] == b[1..] + ".eml";
      SuffixKeepsOrder(a[1..], b[1..]);
    }
  }

  lemma {:induction false} LexOfPrefix(a: string, b: string)
    requires |a| <= |b|
    ensures LexLeq(a, b) <==> LexLeq(a, b[..|a|])
  {
    if a != [] {
      assert b[..|a|][1..] == b[1..][..|a| - 1];
      LexOfPrefix(a[1..], b[1..]);
    }
  }

  /** The number that the leading digits of `n` make, as many as `columns`. */
  function Leading(n: nat, columns: nat): nat
    requires columns <= |Decimal.Render(n)|
  {
    Decimal.Value(Decimal.Render(n)[..columns])
  }

  /** The text of a smaller number sorts first if and only if it is not above the leading digits of the
      larger. */
  lemma NumberTextsOrdered(a: nat, b: nat)
    requires a <= b
    ensures |Decimal.Render(a)| <= |Decimal.Render(b)|
    ensures LexLeq(Decimal.Render(a), Decimal.Render(b)) <==> a <= Leading(b, |Decimal.Render(a)|)
  {
    hide LexLeq, Decimal.Render, Decimal.Value;
    var x, y := Decimal.Render(a), Decimal.Render(b);
    Decimal.RenderLengthMonotone(a, b);
    LexOfPrefix(x, y);
    Decimal.SameLengthOrder(x, y[..|x|]);
    Decimal.ValueOfRender(a);
  }

  lemma {:induction false} OneColumnMore(n: nat)
    ensures |Decimal.Render(n)| <= |Decimal.Render(n + 1)| <= |Decimal.Render(n)| + 1
    ensures |Decimal.Render(n)| < |Decimal.Render(n + 1)| ==>
      n > 0 && Leading(n + 1, |Decimal.Render(n)|) == (n + 1) / 10
  {
    Decimal.RenderLengthMonotone(n, n + 1);
    if n >= 10 {
      OneColumnMore(n / 10);
      Decimal.RenderLengthMonotone((n + 1) / 10, n / 10 + 1);
    }
    if n >= 9 {
      Decimal.ValueOfRender((n + 1) / 10);
      assert Decimal.Render(n + 1)[..|Decimal.Render(n + 1)| - 1] == Decimal.Render((n + 1) / 10);
    }
  }

  /** Named by rising numbers, emails are read in their order if and only if no number is above the
      leading digits of a later one. */
  lemma NumbersInOrderIff(emails: seq<EmailData>, ns: seq<nat>)
    requires |emails| == |ns| && forall i :: 0 <= i < |ns| ==> emails[i].emailId == Decimal.Render(ns[i])
    requires forall i, j :: 0 <= i < j < |ns| ==> ns[i] < ns[j]
    ensures Ascending(EmlNames(emails)) <==> forall i, j :: 0 <= i < j < |ns| ==>
      |Decimal.Render(ns[i])| <= |Decimal.Render(ns[j])| && ns[i] <= Leading(ns[j], |Decimal.Render(ns[i])|)
  {
    hide LexLeq, Decimal.Render, Leading;
    forall i, j | 0 <= i < j < |ns|
      ensures |Decimal.Render(ns[i])| <= |Decimal.Render(ns[j])|
      ensures LexLeq(EmlNames(emails)[i], EmlNames(emails)[j]) <==> ns[i] <= Leading(ns[j], |Decimal.Render(ns[i])|)
    {
      NumberTextsOrdered(ns[i], ns[j]);
      SuffixKeepsOrder(Decimal.Render(ns[i]), Decimal.Render(ns[j]));
    }
  }

  /** Numbers in a row are read in order if and only if the first and the last are equally long. */
  lemma RowInOrderIff(emails: seq<EmailData>, first: nat)
    requires emails != [] && forall i :: 0 <= i < |emails| ==> emails[i].emailId == Decimal.Render(first + i)
    ensures Ascending(EmlNames(emails))
            <==> |Decimal.Render(first)| == |Decimal.Render(first + |emails| - 1)|
  {
    hide LexLeq, Decimal.Render;
    var n := |emails|;
    if |Decimal.Render(first)| == |Decimal.Render(first + n - 1)| {
      forall i, j | 0 <= i < j < n ensures LexLeq(EmlNames(emails)[i], EmlNames(emails)[j]) {
        Decimal.RenderLengthMonotone(first, first + i);
        Decimal.RenderLengthMonotone(first + j, first + n - 1);
        NumberTextsOrdered(first + i, first + j);
        SameLengthLeading(first + i, first + j);
        SuffixKeepsOrder(Decimal.Render(first + i), Decimal.Render(first + j));
      }
    } else {
      var k := LongerNext(first, n);
      OneColumnMore(first + k);
      NumberTextsOrdered(first + k, first + k + 1);
      SuffixKeepsOrder(Decimal.Render(first + k), Decimal.Render(first + k + 1));
      assert !LexLeq(EmlNames(emails)[k], EmlNames(emails)[k + 1]);
    }
  }

  lemma SameLengthLeading(a: nat, b: nat)
    requires a <= b && |Decimal.Render(a)| >= |Decimal.Render(b)|
    ensures |Decimal.Render(a)| == |Decimal.Render(b)| && Leading(b, |Decimal.Render(a)|) == b
  {
    Decimal.RenderLengthMonotone(a, b);
    Decimal.ValueOfRender(b);
    assert Decimal.Render(b)[..|Decimal.Render(b)|] == Decimal.Render(b);
  }

  lemma {:induction false} LongerNext(first: nat, n: nat) returns (k: nat)
    requires n > 0 && |Decimal.Render(first)| != |Decimal.Render(first + n - 1)|
    ensures k + 1 < n && |Decimal.Render(first + k)| < |Decimal.Render(first + k + 1)|
  {
    hide Decimal.Render;
    Decimal.RenderLengthMonotone(first + n - 2, first + n - 1);
    if |Decimal.Render(first + n - 2)| < |Decimal.Render(first + n - 1)| {
      k := n - 2;
    } else {
      k := LongerNext(first, n - 1);
    }
  }

  /** The smallest disorder. */
  lemma NineAndTen(emails: seq<EmailData>)
    requires |emails| == 2 && emails[0].emailId == Decimal.Render(9) && emails[1].emailId == Decimal.Render(10)
    ensures !Ascending(EmlNames(emails))
  {
    assert Decimal.Render(10) == Decimal.Render(1) + [Decimal.Digit(0)];
    RowInOrderIff(emails, 9);
  }

  // ----- the order of names that start with padded numbers

  lemma {:induction false} LexDiffer(a: string, b: string, x: string, y: string)
    requires |a| == |b| && a != b && LexLeq(a, b)
    ensures LexLeq(a + x, b + y)
  {
    assert (a + x)[1..] == a[1..] + x && (b + y)[1..] == b[1..] + y;
    if a[0] == b[0] {
      assert a == [a[0]] + a[1..] && b == [b[0]] + b[1..];
      LexDiffer(a[1..], b[1..], x, y);
    }
  }

  /** Texts that start with rising numbers of ten columns are in order, whatever follows. */
  lemma PaddedInOrder(a: nat, b: nat, x: string, y: string)
    requires a < b && |Decimal.Render(b)| <= 10
    ensures LexLeq(Decimal.Pad(a, 10) + x, Decimal.Pad(b, 10) + y)
  {
    hide LexLeq, Decimal.Value, Decimal.Render;
    var s, t := Decimal.Pad(a, 10), Decimal.Pad(b, 10);
    Decimal.RenderLengthMonotone(a, b);
    Decimal.ValueOfPad(a, 10);
    Decimal.ValueOfPad(b, 10);
    Decimal.SameLengthOrder(s, t);
    LexDiffer(s, t, x, y);
  }

  lemma {:induction false} DistinctAreLatest(emails: seq<EmailData>)
    requires DistinctIds(emails)
    ensures Latest(emails) == emails
  {
    if emails != [] {
      var older, last := emails[..|emails| - 1], Last(emails);
      DistinctAreLatest(older);
      NothingDropped(older, last.emailId);
      assert emails == older + [last];
    }
  }

  lemma {:induction false} NothingDropped(emails: seq<EmailData>, id: string)
    requires forall i :: 0 <= i < |emails| ==> emails[i].emailId != id
    ensures Without(emails, id) == emails
  {
    if emails != [] {
      NothingDropped(emails[..|emails| - 1], id);
      assert emails == emails[..|emails| - 1] + [Last(emails)];
    }
  }
}
