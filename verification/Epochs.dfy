/** Finding the epochs of an inbox: which directories count, and the order they are visited in. */
module Epochs {
  import opened Prelude
  import opened Text
  import opened Sorting
  import opened PublicInbox
  import Decimal

  // ----- epoch names

  /** Epoch names are numbers, and the epochs come in increasing order of them. */
  ghost predicate IncreasingNames(epochs: seq<EpochRepo>) {
    && (forall i :: 0 <= i < |epochs| ==> Decimal.ParseUsize(epochs[i].name).Some?)
    && (forall i, j :: 0 <= i < j < |epochs| ==>
          Decimal.ParseUsize(epochs[i].name).value < Decimal.ParseUsize(epochs[j].name).value)
  }

  /** Numbers in increasing order, with or without "all" at the end. */
  ghost predicate OrderedNames(epochs: seq<EpochRepo>) {
    || IncreasingNames(epochs)
    || (epochs != [] && Last(epochs).name == V1_LABEL && IncreasingNames(epochs[..|epochs| - 1]))
  }

  lemma V1IsNotANumber()
    ensures Decimal.ParseUsize(V1_LABEL).None?
  {
    assert V1_LABEL[0] == 'a' && !Decimal.IsDigit('a');
  }

  lemma NumericHasNoDash(name: string)
    requires Decimal.ParseUsize(name).Some?
    ensures '-' !in name
  {
    var digits := if |name| > 1 && name[0] == '+' then name[1..] else name;
    assert forall i :: 0 <= i < |digits| ==> Decimal.IsDigit(digits[i]);
    assert name == digits || name == ['+'] + digits;
  }

  lemma NameHasNoDash(name: string)
    requires Decimal.ParseUsize(name).Some? || name == V1_LABEL
    ensures '-' !in name
  {
    hide Decimal.ParseUsize;
    if name != V1_LABEL {
      NumericHasNoDash(name);
    }
  }

  // ----- finding the epochs

  /** An entry of the inbox directory; a repository has objects and a master branch and can be
      opened. */
  datatype Entry = Entry(fileName: string, isRepository: bool, walk: seq<Commit>, detached: set<string>)

  const GIT_SUFFIX := ".git"

  function EpochsOf(entries: seq<Entry>): seq<EpochRepo> {
    if entries == [] then []
    else
      var e := entries[0];
      (if EndsWith(e.fileName, GIT_SUFFIX) && e.isRepository
       then [EpochRepo(e.fileName[..|e.fileName| - 4], e.walk, e.detached)] else [])
      + EpochsOf(entries[1..])
  }

  /** The epochs found are the repositories named like one, without the suffix. */
  lemma {:induction false} FoundExactly(entries: seq<Entry>, e: EpochRepo)
    ensures e in EpochsOf(entries)
            <==> exists i :: 0 <= i < |entries| && entries[i] == Entry(e.name + ".git", true, e.walk, e.detached)
  {
    if entries != [] {
      FoundExactly(entries[1..], e);
      FoundFirst(entries[0], e);
      assert entries == [entries[0]] + entries[1..];
      if i :| 0 <= i < |entries[1..]| && entries[1..][i] == Entry(e.name + ".git", true, e.walk, e.detached) {
        assert entries[i + 1] == entries[1..][i];
      }
    }
  }

  lemma FoundFirst(entry: Entry, e: EpochRepo)
    ensures entry == Entry(e.name + ".git", true, e.walk, e.detached)
            <==> EndsWith(entry.fileName, GIT_SUFFIX) && entry.isRepository
                 && e == EpochRepo(entry.fileName[..|entry.fileName| - 4], entry.walk, entry.detached)
  {
    var name := entry.fileName;
    if EndsWith(name, GIT_SUFFIX) {
      assert name == name[..|name| - 4] + ".git";
    }
    assert (e.name + ".git")[..|e.name|] == e.name;
  }

  function Number(name: string): Option<nat> {
    Decimal.ParseUsize(name)
  }

  /** Not greater, as the comparison sees it: "all" comes last, numbers are compared as numbers, and
      as soon as one name is not a number both are compared as texts. */
  predicate NotAfter(a: string, b: string) {
    if (a == V1_LABEL) != (b == V1_LABEL) then b == V1_LABEL
    else if Number(a).Some? && Number(b).Some? then Number(a).value <= Number(b).value
    else LexLeq(a, b)
  }

  lemma ComparisonIsTotal(a: string, b: string)
    ensures NotAfter(a, b) || NotAfter(b, a)
  {
    LexTotal(a, b);
  }

  ghost predicate Transitive(names: set<string>) {
    forall a, b, c :: a in names && b in names && c in names && NotAfter(a, b) && NotAfter(b, c) ==> NotAfter(a, c)
  }

  /** Two numbers whose texts are in the opposite order, and between the texts a name that is
      neither a number nor "all". */
  predicate Caught(lo: string, x: string, hi: string) {
    && Number(lo).Some? && Number(hi).Some? && Number(lo).value <= Number(hi).value
    && Number(x).None? && x != V1_LABEL && LexLeq(hi, x) && LexLeq(x, lo)
  }

  ghost predicate Entangled(names: set<string>) {
    exists lo, x, hi :: lo in names && x in names && hi in names && Caught(lo, x, hi)
  }

  /** The comparison is always total; it orders a set of names exactly when none of them is caught
      between two numbers. */
  lemma OrderedIff(names: set<string>)
    ensures Transitive(names) <==> !Entangled(names)
  {
    hide Caught, NotAfter;
    if lo, x, hi :| lo in names && x in names && hi in names && Caught(lo, x, hi) {
      CaughtBreaks(lo, x, hi);
      assert !Transitive(names);
    }
    forall a, b, c | a in names && b in names && c in names && NotAfter(a, b) && NotAfter(b, c) && !NotAfter(a, c)
      ensures Entangled(names)
    {
      BreaksAreCaught(a, b, c);
    }
  }

  /** The number before the text, the text before the other number, but not so the numbers. */
  lemma CaughtBreaks(lo: string, x: string, hi: string)
    requires Caught(lo, x, hi)
    ensures NotAfter(lo, hi) && NotAfter(hi, x) && !NotAfter(lo, x)
  {
    V1IsNotANumber();
    if LexLeq(lo, x) {
      LexAntisymmetric(lo, x);
    }
  }

  lemma BreaksAreCaught(a: string, b: string, c: string)
    requires NotAfter(a, b) && NotAfter(b, c) && !NotAfter(a, c)
    ensures Caught(a, c, b) || Caught(b, a, c) || Caught(c, b, a)
  {
    hide LexLeq;
    V1IsNotANumber();
    LexTotal(a, c);
    LexTotal(a, b);
    LexTotal(b, c);
    if LexLeq(a, b) && LexLeq(b, c) {
      LexTransitive(a, b, c);
    }
  }

  /** Nothing is caught among numbers and "all" alone, nor where no name is a number. */
  lemma PlainNames(names: set<string>)
    requires || (forall n :: n in names ==> Number(n).Some? || n == V1_LABEL)
             || (forall n :: n in names ==> Number(n).None?)
    ensures !Entangled(names)
  {
  }

  /** The smallest circle: 9 comes before 10, 10 before 5a, and 5a before 9. */
  lemma CaughtNamesCycle()
    ensures NotAfter("9", "10") && NotAfter("10", "5a") && NotAfter("5a", "9")
    ensures !NotAfter("10", "9") && !NotAfter("5a", "10") && !NotAfter("9", "5a")
  {
    assert Decimal.Value("9") == 10 * Decimal.Value("") + 9;
    assert "10"[..1] == "1" && "1"[..0] == "";
    assert Decimal.Value("10") == 10;
    assert "5a"[1] == 'a';
    assert LexLeq("10", "5a") && LexLeq("5a", "9");
  }

  predicate VisitedFirst(a: EpochRepo, b: EpochRepo) {
    NotAfter(a.name, b.name)
  }

  /** Equal names keep the order of the directory listing. */
  function SortEpochs(s: seq<EpochRepo>): seq<EpochRepo> {
    SortBy(VisitedFirst, s)
  }

  function Names(s: seq<EpochRepo>): set<string> {
    set e | e in s :: e.name
  }

  /** Whatever the names, nothing is lost; where nothing is caught the result is in order. */
  lemma SortEpochsInOrder(s: seq<EpochRepo>)
    ensures multiset(SortEpochs(s)) == multiset(s)
    ensures !Entangled(Names(s)) ==> Arranged(VisitedFirst, SortEpochs(s))
  {
    hide NotAfter, Entangled;
    SortByKeeps(VisitedFirst, s);
    OrderedIff(Names(s));
    forall a, b: string ensures NotAfter(a, b) || NotAfter(b, a) {
      ComparisonIsTotal(a, b);
    }
    if !Entangled(Names(s)) {
      SortByInOrder(VisitedFirst, s, s);
    }
  }

  /** When the numbers around a caught name differ, no arrangement whatever is in order. */
  lemma CaughtHaveNoOrder(s: seq<EpochRepo>, lo: string, x: string, hi: string)
    requires lo in Names(s) && x in Names(s) && hi in Names(s)
    requires Caught(lo, x, hi) && Number(lo) != Number(hi)
    ensures !Arranged(VisitedFirst, s)
  {
    hide NotAfter, Caught, Number;
    CaughtBreaks(lo, x, hi);
    CaughtCircle(lo, x, hi);
    var i :| 0 <= i < |s| && s[i].name == lo;
    var j :| 0 <= j < |s| && s[j].name == x;
    var k :| 0 <= k < |s| && s[k].name == hi;
    assert Arranged(VisitedFirst, s) ==> i < k && k < j && j < i;
  }

  lemma CaughtCircle(lo: string, x: string, hi: string)
    requires Caught(lo, x, hi) && Number(lo) != Number(hi)
    ensures lo != x && x != hi && lo != hi && !NotAfter(lo, x) && !NotAfter(x, hi) && !NotAfter(hi, lo)
  {
    V1IsNotANumber();
    if LexLeq(lo, x) {
      LexAntisymmetric(lo, x);
    }
    if LexLeq(x, hi) {
      LexAntisymmetric(x, hi);
    }
  }

  /** The scan of the directory. */
  method ListEpochs(entries: seq<Entry>) returns (epochs: seq<EpochRepo>)
    ensures epochs == EpochsOf(entries)
  {
    epochs := [];
    var i := 0;
    while i < |entries|
      invariant i <= |entries| && epochs + EpochsOf(entries[i..]) == EpochsOf(entries)
    {
      var e := entries[i];
      ghost var before := epochs;
      if EndsWith(e.fileName, GIT_SUFFIX) && e.isRepository {
        epochs := epochs + [EpochRepo(e.fileName[..|e.fileName| - 4], e.walk, e.detached)];
      }
      assert entries[i..][1..] == entries[i + 1..];
      assert before + EpochsOf(entries[i..]) == epochs + EpochsOf(entries[i + 1..]);
      i := i + 1;
    }
  }

  method FindEpochs(entries: seq<Entry>) returns (epochs: seq<EpochRepo>)
    ensures multiset(epochs) == multiset(EpochsOf(entries))
    ensures !Entangled(Names(EpochsOf(entries))) ==> Arranged(VisitedFirst, epochs)
  {
    hide EpochsOf, Entangled, Arranged, SortEpochs;
    epochs := ListEpochs(entries);
    SortEpochsInOrder(epochs);
    epochs := SortEpochs(epochs);
  }

  /** All names are numbers, and no number occurs twice. */
  ghost predicate DistinctNumbers(m: multiset<EpochRepo>) {
    && (forall e :: e in m ==> Number(e.name).Some? && m[e] == 1)
    && (forall e, f :: e in m && f in m && Number(e.name) == Number(f.name) ==> e == f)
  }

  lemma Repeated(s: seq<EpochRepo>, i: nat, j: nat)
    requires i < j < |s| && s[i] == s[j]
    ensures multiset(s)[s[i]] >= 2
  {
    assert s == s[..i] + [s[i]] + s[i + 1..j] + [s[j]] + s[j + 1..];
  }

  /** With distinct numbers for names the epochs are visited in strictly increasing order. */
  lemma NumbersIncrease(epochs: seq<EpochRepo>)
    requires Arranged(VisitedFirst, epochs) && DistinctNumbers(multiset(epochs))
    ensures IncreasingNames(epochs)
  {
    V1IsNotANumber();
    forall i | 0 <= i < |epochs| ensures Number(epochs[i].name).Some? {
      assert epochs[i] in multiset(epochs);
    }
    forall i, j | 0 <= i < j < |epochs|
      ensures Number(epochs[i].name).value < Number(epochs[j].name).value
    {
      assert VisitedFirst(epochs[i], epochs[j]);
      if epochs[i] == epochs[j] {
        Repeated(epochs, i, j);
        assert false;
      }
    }
  }

  /** With an epoch called "all" among them, it is the last one, and the numbers before it increase. */
  lemma AllComesLast(epochs: seq<EpochRepo>, all: EpochRepo)
    requires Arranged(VisitedFirst, epochs) && all.name == "all" && multiset(epochs)[all] == 1
    requires DistinctNumbers(multiset(epochs) - multiset{all})
    ensures Last(epochs) == all && IncreasingNames(epochs[..|epochs| - 1]) && OrderedNames(epochs)
  {
    hide Number, IncreasingNames, DistinctNumbers, NotAfter;
    var i := PlaceOf(epochs, all);
    NothingBehindAll(epochs, all, i);
    assert epochs == epochs[..i] + [all];
    assert multiset(epochs[..i]) == multiset(epochs) - multiset{all};
    NumbersIncrease(epochs[..i]);
  }

  lemma NothingBehindAll(epochs: seq<EpochRepo>, all: EpochRepo, i: nat)
    requires i < |epochs| && epochs[i] == all && all.name == "all" && multiset(epochs)[all] == 1
    requires DistinctNumbers(multiset(epochs) - multiset{all}) && Arranged(VisitedFirst, epochs)
    ensures i + 1 == |epochs|
  {
    hide Number, DistinctNumbers;
    V1IsNotANumber();
    NumbersOnly(multiset(epochs) - multiset{all});
    if i + 1 < |epochs| {
      assert VisitedFirst(epochs[i], epochs[i + 1]);
      if epochs[i + 1] == all {
        Repeated(epochs, i, i + 1);
      }
      assert epochs[i + 1] in multiset(epochs);
      assert epochs[i + 1] in multiset(epochs) - multiset{all};
      NumberIsNotAll(epochs[i + 1].name);
    }
  }

  lemma NumberIsNotAll(name: string)
    requires Number(name).Some?
    ensures name != V1_LABEL
  {
    V1IsNotANumber();
  }

  lemma PlaceOf(epochs: seq<EpochRepo>, e: EpochRepo) returns (i: nat)
    requires e in multiset(epochs)
    ensures i < |epochs| && epochs[i] == e
  {
    i :| 0 <= i < |epochs| && epochs[i] == e;
  }

  lemma NumbersOnly(m: multiset<EpochRepo>)
    requires DistinctNumbers(m)
    ensures forall e :: e in m ==> Number(e.name).Some?
  {
  }

  lemma IncreasingOnce(epochs: seq<EpochRepo>, x: EpochRepo)
    requires IncreasingNames(epochs) && x in multiset(epochs)
    ensures Number(epochs[0].name).Some? && Number(x.name).Some?
    ensures epochs[0] == x || Number(epochs[0].name).value < Number(x.name).value
  {
    var i :| 0 <= i < |epochs| && epochs[i] == x;
  }

  lemma RestIncreases(epochs: seq<EpochRepo>)
    requires IncreasingNames(epochs) && epochs != []
    ensures IncreasingNames(epochs[1..])
  {
  }

  /** Nor does it matter in which order the directory lists them. */
  lemma {:induction false} ListingOrderIsIrrelevant(a: seq<EpochRepo>, b: seq<EpochRepo>)
    requires IncreasingNames(a) && IncreasingNames(b) && multiset(a) == multiset(b)
    ensures a == b
  {
    hide IncreasingNames, Number;
    assert |multiset(a)| == |a| && |multiset(b)| == |b|;
    if a != [] {
      IncreasingOnce(a, b[0]);
      IncreasingOnce(b, a[0]);
      DropFirst(a);
      DropFirst(b);
      RestIncreases(a);
      RestIncreases(b);
      ListingOrderIsIrrelevant(a[1..], b[1..]);
    }
  }
}
