/** First runs over a range of email numbers: which commits are taken, and under which numbers. */
module InboxRanges {
  import opened Prelude
  import opened EmailStore
  import opened PublicInbox
  import opened InboxTheorems
  import opened InboxRuns
  import Decimal
  import EmailId

  /** Numbers count from one; zero asks for the first commit, too. */
  predicate AsksFor(numbers: seq<nat>, n: nat) {
    n in numbers || (n == 1 && 0 in numbers)
  }

  /** The commits asked for, when the first one has the number `g` + 1. */
  function Asked(walk: seq<Commit>, g: nat, numbers: seq<nat>): seq<Commit> {
    if walk == [] then []
    else (if AsksFor(numbers, g + 1) then [walk[0]] else []) + Asked(walk[1..], g + 1, numbers)
  }

  lemma {:induction false} AskedPush(walk: seq<Commit>, c: Commit, g: nat, numbers: seq<nat>)
    ensures Asked(walk + [c], g, numbers)
         == Asked(walk, g, numbers) + if AsksFor(numbers, g + |walk| + 1) then [c] else []
  {
    hide AsksFor;
    if walk == [] {
      assert (walk + [c])[1..] == [];
    } else {
      assert (walk + [c])[1..] == walk[1..] + [c];
      AskedPush(walk[1..], c, g + 1, numbers);
      var first := if AsksFor(numbers, g + 1) then [walk[0]] else [];
      var last := if AsksFor(numbers, g + |walk| + 1) then [c] else [];
      assert Asked(walk, g, numbers) == first + Asked(walk[1..], g + 1, numbers);
      assert Asked(walk + [c], g, numbers) == first + (Asked(walk[1..], g + 1, numbers) + last);
    }
  }

  lemma PositionAsked(numbers: seq<nat>, position: nat)
    ensures position in PositionsOf(numbers) <==> AsksFor(numbers, position + 1)
  {
    if position + 1 in numbers {
      assert SaturatingSub(position + 1, 1) == position;
    }
    if position == 0 && 0 in numbers {
      assert SaturatingSub(0, 1) == 0;
    }
  }

  lemma {:induction false} WantedAreAsked(walk: seq<Commit>, g: nat, numbers: seq<nat>)
    ensures Wanted(walk, g, Some(PositionsOf(numbers))) == Asked(walk, g, numbers)
  {
    hide AsksFor, PositionsOf;
    if walk != [] {
      var k := |walk| - 1;
      WantedAreAsked(walk[..k], g, numbers);
      AskedPush(walk[..k], walk[k], g, numbers);
      PositionAsked(numbers, g + k);
      assert walk == walk[..k] + [walk[k]];
    }
  }

  /** What a first run over a range archives: of every epoch the commits asked for, as long as the
      epoch is not cut short, numbered from the beginning of the epoch on. */
  function RangeEmails(epochs: seq<EpochRepo>, g: nat, numbers: seq<nat>): seq<EmailData> {
    if epochs == [] then []
    else
      var walk := epochs[0].walk;
      EmailsOf(Take(Asked(walk, g, numbers), |walk| - Dropped(|walk|, g)), g, epochs[0].name)
      + RangeEmails(epochs[1..], g + |walk|, numbers)
  }

  lemma RangeStep(epochs: seq<EpochRepo>, g: nat, numbers: seq<nat>)
    requires epochs != []
    ensures var e, n, positions := epochs[0], |epochs[0].walk|, Some(PositionsOf(numbers));
      PlanEmails(Plan(epochs, None, g, g), positions, None)
      == EmailsOf(Take(Asked(e.walk, g, numbers), n - Dropped(n, g)), g, e.name)
         + PlanEmails(Plan(epochs[1..], None, g + n, g + n), positions, None)
  {
    hide PlanEmails, EmailsOf, Task.VisibleAt, Task.EmailsAt, Dropped, PositionsOf, Asked, ResumeSha, Take;
    var p, positions := Plan(epochs, None, g, g), Some(PositionsOf(numbers));
    var e, n := epochs[0], |epochs[0].walk|;
    PlanStep(p, positions, None, []);
    assert [] + PlanEmails(p, positions, None) == PlanEmails(p, positions, None);
    RangeInEpoch(e, g, numbers);
    NoEmails(g, e.name);
    NothingAsked(g, numbers, 0);
    var emails := FirstTask(p, positions).EmailsAt(n);
    assert [] + emails == emails;
    var rest := PlanEmails(NextPlan(p, 0), positions, None);
    assert [] + rest == rest;
  }

  lemma {:induction false} RangeRun(epochs: seq<EpochRepo>, g: nat, numbers: seq<nat>)
    ensures PlanEmails(Plan(epochs, None, g, g), Some(PositionsOf(numbers)), None) == RangeEmails(epochs, g, numbers)
    decreases |epochs|
  {
    hide PlanEmails, EmailsOf, Dropped, PositionsOf, Asked, Take;
    if epochs == [] {
      PlanDone(Plan(epochs, None, g, g), Some(PositionsOf(numbers)), None);
    } else {
      RangeStep(epochs, g, numbers);
      RangeRun(epochs[1..], g + |epochs[0].walk|, numbers);
    }
  }

  lemma NothingAsked(g: nat, numbers: seq<nat>, k: nat)
    ensures Take(Asked([], g, numbers), k) == []
  {
  }

  lemma RangeInEpoch(e: EpochRepo, g: nat, numbers: seq<nat>)
    ensures var t, n := Task(e, ResumeSha(e, None), g, Some(PositionsOf(numbers))), |e.walk|;
      && t.VisibleAt(n) == e.walk
      && t.EmailsAt(n) == EmailsOf(Take(Asked(e.walk, g, numbers), n - Dropped(n, g)), g, e.name)
  {
    hide Wanted, Asked, PositionsOf, EmailsOf;
    NoResume(e.walk);
    WantedAreAsked(e.walk, g, numbers);
  }

  // ----- the numbers

  /** Who asks for a commit asks for all before it in the epoch. */
  ghost predicate FromTheStart(numbers: seq<nat>, g: nat, n: nat) {
    forall i, j :: g < i < j <= g + n && AsksFor(numbers, j) ==> AsksFor(numbers, i)
  }

  lemma {:induction false} AskedWithin(walk: seq<Commit>, g: nat, numbers: seq<nat>)
    ensures |Asked(walk, g, numbers)| <= |walk|
    ensures forall c :: c in Asked(walk, g, numbers) ==> c in walk
    ensures Asked(walk, g, numbers) == [] <==> forall i :: g < i <= g + |walk| ==> !AsksFor(numbers, i)
  {
    hide AsksFor;
    if walk != [] {
      AskedWithin(walk[1..], g + 1, numbers);
      assert walk == [walk[0]] + walk[1..];
    }
  }

  lemma {:induction false} AskedIsPrefixIff(walk: seq<Commit>, g: nat, numbers: seq<nat>)
    requires DistinctShas(walk)
    ensures Asked(walk, g, numbers) <= walk <==> FromTheStart(numbers, g, |walk|)
  {
    hide AsksFor, FromTheStart;
    if walk == [] {
      NobodyAsks(numbers, g);
    } else {
      var later := Asked(walk[1..], g + 1, numbers);
      AskedIsPrefixIff(walk[1..], g + 1, numbers);
      if AsksFor(numbers, g + 1) {
        FirstAsked(numbers, g, |walk|);
        PrefixOfRest(walk, later);
      } else {
        NotFirst(walk, g, numbers);
        assert [] + later == later;
      }
    }
  }

  lemma NobodyAsks(numbers: seq<nat>, g: nat)
    ensures FromTheStart(numbers, g, 0)
  {
  }

  lemma PrefixOfRest(walk: seq<Commit>, later: seq<Commit>)
    requires walk != []
    ensures [walk[0]] + later <= walk <==> later <= walk[1..]
  {
    var all := [walk[0]] + later;
    if all <= walk {
      assert later == all[1..] == walk[1..][..|later|];
    }
    if later <= walk[1..] {
      assert all == walk[..|all|];
    }
  }

  /** The head is not asked for: then nothing else may be. */
  lemma NotFirst(walk: seq<Commit>, g: nat, numbers: seq<nat>)
    requires DistinctShas(walk) && walk != [] && !AsksFor(numbers, g + 1)
    ensures Asked(walk[1..], g + 1, numbers) <= walk <==> FromTheStart(numbers, g, |walk|)
  {
    hide AsksFor, Asked;
    var rest, later := walk[1..], Asked(walk[1..], g + 1, numbers);
    AskedWithin(rest, g + 1, numbers);
    if later != [] {
      assert later[0] in later && later[0] in rest;
      var k :| 0 <= k < |rest| && rest[k] == later[0];
      assert walk[k + 1].sha != walk[0].sha;
      var i :| g + 1 < i <= g + 1 + |rest| && AsksFor(numbers, i);
      assert !FromTheStart(numbers, g, |walk|);
    }
  }

  lemma FirstAsked(numbers: seq<nat>, g: nat, n: nat)
    requires AsksFor(numbers, g + 1) && n > 0
    ensures FromTheStart(numbers, g, n) <==> FromTheStart(numbers, g + 1, n - 1)
  {
    hide AsksFor;
  }

  /** In an epoch where every commit has a message: the emails of a range are those a run without a
      range archives, numbers included, if and only if the range asks from the start of the epoch. */
  lemma RangeKeepsNumbersIff(e: EpochRepo, g: nat, numbers: seq<nat>)
    requires DistinctShas(e.walk) && AllHaveMail(e.walk) && '-' !in e.name && g + |e.walk| <= Decimal.USIZE_MAX
    ensures EmailsOf(Asked(e.walk, g, numbers), g, e.name) <= EmailsOf(e.walk, g, e.name)
            <==> FromTheStart(numbers, g, |e.walk|)
  {
    hide EmailsOf, Asked, EmailId.Format, DistinctShas, FromTheStart;
    var walk, asked := e.walk, Asked(e.walk, g, numbers);
    AskedIsPrefixIff(walk, g, numbers);
    AskedWithin(walk, g, numbers);
    assert forall i :: 0 <= i < |asked| ==> asked[i] in asked;
    ReadableCount(walk, g, e.name);
    ReadableCount(asked, g, e.name);
    if asked <= walk {
      assert asked == walk[..|asked|];
      EmailsOfPrefix(walk, |asked|, g, e.name);
    }
    if EmailsOf(asked, g, e.name) <= EmailsOf(walk, g, e.name) {
      forall i | 0 <= i < |asked| ensures asked[i] == walk[i] {
        assert EmailsOf(asked, g, e.name)[i] == EmailsOf(walk, g, e.name)[i];
        EmailId.FormatInjective(g + i + 1, e.name, asked[i].sha, g + i + 1, e.name, walk[i].sha);
        ReadableAt(asked, g, e.name, i);
        ReadableAt(walk, g, e.name, i);
      }
      assert asked == walk[..|asked|];
    }
  }

  lemma {:induction false} ReadableAt(commits: seq<Commit>, g: nat, name: string, i: nat)
    requires AllHaveMail(commits) && i < |commits|
    ensures |EmailsOf(commits, g, name)| == |commits| && commits[i].mail == Some(EmailsOf(commits, g, name)[i].content)
  {
    hide EmailId.Format;
    ReadableCount(commits, g, name);
    ReadableCount(commits[..|commits| - 1], g, name);
    if i < |commits| - 1 {
      ReadableAt(commits[..|commits| - 1], g, name, i);
    }
  }
}
