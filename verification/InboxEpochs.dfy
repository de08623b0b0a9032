/** Runs over several epochs: what a resumed run does behind the epoch it resumes in, what new epochs
    add, and where a stopped run ends. */
module InboxEpochs {
  import opened Prelude
  import opened EmailStore
  import opened Shutdown
  import opened PublicInbox
  import opened Epochs
  import opened InboxTheorems
  import opened InboxResume
  import opened InboxRuns
  import opened InboxPushes
  import Decimal
  import EmailId

  // ----- behind the first epoch of a plan

  /** A run that comes to these epochs with its position `ahead` of the commits counted: it passes over
      epochs as long as they fit into the lead, and visits the others as a fresh run at its position
      would. */
  function Continued(epochs: seq<EpochRepo>, position: nat, ahead: nat): seq<EmailData> {
    if epochs == [] then []
    else
      var walk, rest := epochs[0].walk, epochs[1..];
      if |walk| <= ahead then Continued(rest, position, ahead - |walk|)
      else
        EmailsOf(walk[..|walk| - Dropped(|walk|, position)], position, epochs[0].name)
        + Continued(rest, position + |walk|, ahead)
  }

  /** Without a lead it is a fresh run. */
  lemma {:induction false} NoLeadIsFresh(epochs: seq<EpochRepo>, position: nat)
    ensures Continued(epochs, position, 0) == FreshEmails(epochs, position)
    decreases |epochs|
  {
    hide EmailsOf;
    if epochs != [] {
      NoLeadIsFresh(epochs[1..], position + |epochs[0].walk|);
      NoEmails(position, epochs[0].name);
    }
  }

  /** The first of these epochs, passed over or visited. */
  lemma LaterStep(epochs: seq<EpochRepo>, position: nat, before: nat)
    requires epochs != []
    ensures var walk, rest := epochs[0].walk, epochs[1..];
      PlanEmails(Plan(epochs, None, position, before), None, None)
      == if position >= before + |walk| then PlanEmails(Plan(rest, None, position, before + |walk|), None, None)
         else EmailsOf(walk[..|walk| - Dropped(|walk|, position)], position, epochs[0].name)
                + PlanEmails(Plan(rest, None, position + |walk|, before + |walk|), None, None)
  {
    hide PlanEmails, EmailsOf, Task.VisibleAt, Task.PickedAt, Dropped, ResumeSha;
    var p, n := Plan(epochs, None, position, before), |epochs[0].walk|;
    PlanStep(p, None, None, []);
    FreshEpoch(epochs[0], position);
    assert [] + PlanEmails(p, None, None) == PlanEmails(p, None, None);
    var emails := FirstTask(p, None).EmailsAt(n);
    assert [] + emails == emails;
  }

  lemma {:induction false} LaterEpochs(epochs: seq<EpochRepo>, position: nat, before: nat)
    ensures PlanEmails(Plan(epochs, None, position, before), None, None)
         == Continued(epochs, position, SaturatingSub(position, before))
    decreases |epochs|
  {
    hide PlanEmails, EmailsOf, Dropped;
    if epochs == [] {
      PlanDone(Plan(epochs, None, position, before), None, None);
    } else {
      var walk := epochs[0].walk;
      LaterStep(epochs, position, before);
      if position >= before + |walk| {
        LaterEpochs(epochs[1..], position, before + |walk|);
      } else {
        LaterEpochs(epochs[1..], position + |walk|, before + |walk|);
        if walk == [] {
          NoEmails(position, epochs[0].name);
          var rest := Continued(epochs[1..], position, 0);
          assert [] + rest == rest;
        }
      }
    }
  }

  /** Every email of the run belongs to one of the epochs. */
  lemma {:induction false} ContinuedNames(epochs: seq<EpochRepo>, position: nat, ahead: nat, name: string, sha: string)
    requires position + Total(epochs) <= Decimal.USIZE_MAX
    requires forall i :: 0 <= i < |epochs| ==> '-' !in epochs[i].name && epochs[i].name != name
    ensures !Archives(Continued(epochs, position, ahead), name, sha)
    decreases |epochs|
  {
    hide EmailsOf, Archives, EmailId.Format, EmailId.Parse;
    NothingArchived(name, sha);
    if epochs != [] {
      var walk, n := epochs[0].walk, |epochs[0].walk|;
      if n <= ahead {
        ContinuedNames(epochs[1..], position, ahead - n, name, sha);
      } else {
        var kept := walk[..n - Dropped(n, position)];
        ContinuedNames(epochs[1..], position + n, ahead, name, sha);
        OtherName(kept, position, epochs[0].name, name, sha);
        ArchivesConcat(
          EmailsOf(kept, position, epochs[0].name), Continued(epochs[1..], position + n, ahead), name, sha);
      }
    }
  }

  lemma {:induction false} OtherName(commits: seq<Commit>, position: nat, name: string, other: string, sha: string)
    requires '-' !in name && name != other && position + |commits| <= Decimal.USIZE_MAX
    ensures !Archives(EmailsOf(commits, position, name), other, sha)
  {
    hide EmailId.Format, EmailId.Parse, Archives;
    if commits == [] {
      NothingArchived(other, sha);
    } else {
      var older, c, n := commits[..|commits| - 1], Last(commits), |commits|;
      OtherName(older, position, name, other, sha);
      if c.mail.Some? {
        var email := EmailData(EmailId.Format(position + n, name, c.sha), c.mail.value);
        ArchivesConcat(EmailsOf(older, position, name), [email], other, sha);
        NotNamed(email, position + n, name, c.sha, other, sha);
      }
    }
  }

  lemma NotNamed(email: EmailData, number: nat, name: string, own: string, other: string, sha: string)
    requires '-' !in name && name != other && number <= Decimal.USIZE_MAX
    requires email.emailId == EmailId.Format(number, name, own)
    ensures !Archives([email], other, sha)
  {
    hide EmailId.Format, EmailId.Parse;
    EmailId.ParseInvertsFormat(number, name, own);
  }

  ghost predicate DistinctNames(epochs: seq<EpochRepo>) {
    && (forall i :: 0 <= i < |epochs| ==> '-' !in epochs[i].name)
    && (forall i, j :: 0 <= i < j < |epochs| ==> epochs[i].name != epochs[j].name)
  }

  /** No epoch fits into the lead. */
  ghost predicate LeadIsHarmless(epochs: seq<EpochRepo>, ahead: nat) {
    forall i :: 0 <= i < |epochs| && epochs[i].walk != [] ==> |epochs[i].walk| > ahead
  }

  lemma LeadOfRest(epochs: seq<EpochRepo>, ahead: nat)
    requires epochs != []
    ensures LeadIsHarmless(epochs, ahead)
            <==> (epochs[0].walk == [] || |epochs[0].walk| > ahead) && LeadIsHarmless(epochs[1..], ahead)
    ensures DistinctNames(epochs) ==> DistinctNames(epochs[1..])
    ensures AllReadable(epochs) ==> AllReadable(epochs[1..])
  {
    assert forall i :: 0 < i < |epochs| ==> epochs[i] == epochs[1..][i - 1];
  }

  /** Where all commits have messages: the later epochs are archived as a fresh run would if and only
      if none of them, empty ones aside, fits into the lead. The others are passed over. */
  lemma {:induction false} LeadIsHarmlessIff(epochs: seq<EpochRepo>, position: nat, ahead: nat)
    requires AllReadable(epochs) && DistinctNames(epochs) && position + Total(epochs) <= Decimal.USIZE_MAX
    ensures Continued(epochs, position, ahead) == FreshEmails(epochs, position) <==> LeadIsHarmless(epochs, ahead)
    decreases |epochs|
  {
    hide EmailsOf, AllReadable, DistinctNames, LeadIsHarmless, Dropped;
    if epochs == [] {
      NothingPassedOver(ahead);
    } else {
      var e, rest, n := epochs[0], epochs[1..], |epochs[0].walk|;
      var kept := e.walk[..n - Dropped(n, position)];
      LeadOfRest(epochs, ahead);
      NoEmails(position, e.name);
      if n == 0 {
        LeadIsHarmlessIff(rest, position, ahead);
        assert kept == [] && e.walk == [];
        assert [] + FreshEmails(rest, position) == FreshEmails(rest, position);
      } else if n > ahead {
        LeadIsHarmlessIff(rest, position + n, ahead);
        SameAfter(
          EmailsOf(kept, position, e.name), Continued(rest, position + n, ahead), FreshEmails(rest, position + n));
      } else {
        PassedOver(epochs, position, ahead);
      }
    }
  }

  lemma NothingPassedOver(ahead: nat)
    ensures LeadIsHarmless([], ahead)
  {
  }

  lemma SameAfter(a: seq<EmailData>, b: seq<EmailData>, c: seq<EmailData>)
    ensures a + b == a + c <==> b == c
  {
    assert (a + b)[|a|..] == b && (a + c)[|a|..] == c;
  }

  /** The head of an epoch that is passed over is missing. */
  lemma PassedOver(epochs: seq<EpochRepo>, position: nat, ahead: nat)
    requires epochs != [] && 0 < |epochs[0].walk| <= ahead
    requires AllReadable(epochs) && DistinctNames(epochs) && position + Total(epochs) <= Decimal.USIZE_MAX
    ensures Continued(epochs, position, ahead) != FreshEmails(epochs, position)
  {
    hide EmailsOf, Archives, EmailId.Format;
    var e, rest, n := epochs[0], epochs[1..], |epochs[0].walk|;
    var kept, sha := e.walk[..n - Dropped(n, position)], e.walk[0].sha;
    assert forall i :: 0 <= i < |rest| ==> rest[i] == epochs[i + 1];
    ContinuedNames(rest, position, ahead - n, e.name, sha);
    assert kept[0] == e.walk[0] && e.walk[0].mail.Some?;
    ArchivesExactly(kept, position, e.name, sha);
    ArchivesConcat(EmailsOf(kept, position, e.name), FreshEmails(rest, position + n), e.name, sha);
  }

  // ----- resuming in any epoch

  /** Resuming at an epoch number keeps that epoch and the later ones, and counts the earlier ones. */
  lemma {:induction false} KeepsFrom(earlier: seq<EpochRepo>, kept: seq<EpochRepo>, name: string)
    requires IncreasingNames(earlier + kept) && Decimal.ParseUsize(name).Some?
    requires forall i :: 0 <= i < |earlier| ==>
      && Decimal.ParseUsize(earlier[i].name).Some?
      && Decimal.ParseUsize(earlier[i].name).value < Decimal.ParseUsize(name).value
    requires forall i :: 0 <= i < |kept| ==>
      Decimal.ParseUsize(kept[i].name).Some? && Decimal.ParseUsize(kept[i].name).value >= Decimal.ParseUsize(name).value
    ensures EpochsFrom(earlier + kept, name) == Some(kept)
    ensures CommitsBefore(earlier + kept, name) == Total(earlier)
    decreases |earlier|
  {
    hide Decimal.ParseUsize;
    V1IsNotANumber();
    var all := earlier + kept;
    if earlier == [] {
      assert all == kept;
      KeepsAll(kept, name);
    } else {
      assert all[0] == earlier[0] && all[1..] == earlier[1..] + kept;
      KeepsFrom(earlier[1..], kept, name);
      SkipsOlder(all, name);
    }
  }

  /** The epochs of an inbox, all numbered: those before `e`, `e` itself, those behind it. */
  ghost predicate EpochsAround(inbox: Inbox, earlier: seq<EpochRepo>, e: EpochRepo, later: seq<EpochRepo>) {
    EpochsToUse(inbox, V1_LABEL) == earlier + [e] + later && IncreasingNames(earlier + [e] + later)
  }

  lemma PlanAt(inbox: Inbox, earlier: seq<EpochRepo>, e: EpochRepo, later: seq<EpochRepo>, position: nat, sha: string)
    requires EpochsAround(inbox, earlier, e, later)
    ensures PlanOf(inbox, Some(EmailId.ParsedEmailId(position, e.name, sha)))
         == Some(Plan([e] + later, Some(sha), position, Total(earlier)))
    ensures PlanOf(inbox, None) == Some(Plan(earlier + [e] + later, None, 0, 0))
    ensures '-' !in e.name
  {
    hide Decimal.ParseUsize, EpochsFrom, CommitsBefore;
    V1IsNotANumber();
    var all, kept := earlier + [e] + later, [e] + later;
    assert all == earlier + kept && all[|earlier|] == e;
    assert forall i :: 0 <= i < |earlier| ==> all[i] == earlier[i];
    assert forall i :: 0 <= i < |kept| ==> all[|earlier| + i] == kept[i];
    KeepsFrom(earlier, kept, e.name);
    PlanFrom(inbox, position, e.name, sha);
    NumericHasNoDash(e.name);
  }

  /** The first epoch of a plan, on its own, and then those behind it. */
  lemma FirstThenLater(e: EpochRepo, later: seq<EpochRepo>, sha: string, position: nat, before: nat)
    ensures var reached := if position >= before + |e.walk| then position
                           else position + |Task(e, ResumeSha(e, Some(sha)), position, None).VisibleAt(|e.walk|)|;
      PlanEmails(Plan([e] + later, Some(sha), position, before), None, None)
      == EmailsOf(Resumed(e, before, position, sha), position, e.name)
         + Continued(later, reached, SaturatingSub(reached, before + |e.walk|))
  {
    hide PlanEmails, EmailsOf, Task.VisibleAt, Task.PickedAt, ResumeSha;
    var p := Plan([e] + later, Some(sha), position, before);
    assert ([e] + later)[1..] == later && ([e] + later)[0] == e;
    PlanStep(p, None, None, []);
    assert [] + PlanEmails(p, None, None) == PlanEmails(p, None, None);
    NoEmails(position, e.name);
    if position >= before + |e.walk| {
      LaterEpochs(later, position, before + |e.walk|);
      assert [] + PlanEmails(NextPlan(p, 0), None, None) == PlanEmails(NextPlan(p, 0), None, None);
    } else {
      var t := Task(e, ResumeSha(e, Some(sha)), position, None);
      LaterEpochs(later, position + |t.VisibleAt(|e.walk|)|, before + |e.walk|);
      assert [] + t.EmailsAt(|e.walk|) == t.EmailsAt(|e.walk|);
    }
  }

  /** Where the position stands when the epoch is done. */
  function Reached(g: nat, n: nat, s: Progress): nat
    requires s.index < n
  {
    if s.position >= g + n then s.position else s.position + if s.index == 0 then n - 1 else s.index
  }

  lemma VisibleCount(e: EpochRepo, position: nat, j: nat)
    requires DistinctShas(e.walk) && j < |e.walk|
    ensures |Task(e, ResumeSha(e, Some(e.walk[j].sha)), position, None).VisibleAt(|e.walk|)|
         == if j == 0 then |e.walk| - 1 else j
  {
    ResumeCommitIsUnique(e.walk, Some(e.walk[j].sha), j);
  }

  /** A run that finds a commit of epoch `e` stored, under any number, with further epochs behind it:
      the stretch of `e` that the run would take if it were the last, and then the later epochs, from
      the position reached. */
  lemma ResumeThenLater(inbox: Inbox, earlier: seq<EpochRepo>, e: EpochRepo, later: seq<EpochRepo>, s: Progress)
    requires EpochsAround(inbox, earlier, e, later) && DistinctShas(e.walk)
    requires s.index < |e.walk| && s.position <= Decimal.USIZE_MAX
    ensures var g, n := Total(earlier), |e.walk|;
      var Span(lo, hi) := Window(g, n, s);
      var reached := Reached(g, n, s);
      RunFrom(inbox, StoredAt(e, s))
      == EmailsOf(e.walk[lo..hi], s.position, e.name) + Continued(later, reached, SaturatingSub(reached, g + n))
  {
    hide EmailId.Format, EmailId.Parse, PlanOf, PlanEmails, Resumed, EmailsOf, EpochsAround, DistinctShas, Continued;
    var g, sha := Total(earlier), e.walk[s.index].sha;
    PlanAt(inbox, earlier, e, later, s.position, sha);
    EmailId.ParseInvertsFormat(s.position, e.name, sha);
    FirstThenLater(e, later, sha, s.position, g);
    ResumedClosedForm(e, g, s.position, s.index);
    VisibleCount(e, s.position, s.index);
    var Span(lo, hi) := Window(g, |e.walk|, s);
    assert Resumed(e, g, s.position, sha) == e.walk[lo..hi];
  }

  /** Rewritten history: the stored commit is no longer on the walk of its epoch. The run takes the
      epoch for new, from the stored position on. */
  lemma ResumeAtUnknown(inbox: Inbox, earlier: seq<EpochRepo>, e: EpochRepo, later: seq<EpochRepo>,
                        position: nat, sha: string)
    requires EpochsAround(inbox, earlier, e, later) && position <= Decimal.USIZE_MAX
    requires forall i :: 0 <= i < |e.walk| ==> e.walk[i].sha != sha
    ensures var g, n := Total(earlier), |e.walk|;
      RunFrom(inbox, EmailId.Format(position, e.name, sha))
      == if position >= g + n then Continued(later, position, position - (g + n))
         else EmailsOf(e.walk[..n - Dropped(n, position)], position, e.name)
              + Continued(later, position + n, SaturatingSub(position, g))
  {
    hide EmailId.Format, EmailId.Parse, PlanOf, PlanEmails, EmailsOf, EpochsAround, Continued, Resumed, Dropped;
    var g, n := Total(earlier), |e.walk|;
    PlanAt(inbox, earlier, e, later, position, sha);
    EmailId.ParseInvertsFormat(position, e.name, sha);
    FirstThenLater(e, later, sha, position, g);
    NoEmails(position, e.name);
    UnknownCommit(e, g, position, sha);
    assert [] + Continued(later, position, SaturatingSub(position, g + n))
        == Continued(later, position, SaturatingSub(position, g + n));
  }

  lemma UnknownCommit(e: EpochRepo, before: nat, position: nat, sha: string)
    requires forall i :: 0 <= i < |e.walk| ==> e.walk[i].sha != sha
    ensures var t, n := Task(e, ResumeSha(e, Some(sha)), position, None), |e.walk|;
      && t.VisibleAt(n) == e.walk
      && Resumed(e, before, position, sha)
           == if position >= before + n then [] else e.walk[..n - Dropped(n, position)]
  {
    WantedAll(e.walk, position);
    assert IndexOfSha(e.walk, Some(sha)) == |e.walk|;
    if e.walk == [] {
      assert Visible(e.walk, ResumeSha(e, Some(sha)), 0) == [];
    }
  }

  // ----- new epochs

  lemma {:induction false} FreshConcat(a: seq<EpochRepo>, b: seq<EpochRepo>, g: nat)
    ensures FreshEmails(a + b, g) == FreshEmails(a, g) + FreshEmails(b, g + Total(a))
    ensures Total(a + b) == Total(a) + Total(b)
    decreases |a|
  {
    hide EmailsOf, Dropped;
    if a == [] {
      assert a + b == b;
    } else {
      assert (a + b)[0] == a[0] && (a + b)[1..] == a[1..] + b;
      var n := |a[0].walk|;
      FreshConcat(a[1..], b, g + n);
      var first, rest := EmailsOf(a[0].walk[..n - Dropped(n, g)], g, a[0].name), FreshEmails(a[1..], g + n);
      assert first + (rest + FreshEmails(b, g + Total(a))) == (first + rest) + FreshEmails(b, g + Total(a));
    }
  }

  /** The last epoch that has commits. */
  lemma {:induction false} LastWithCommits(epochs: seq<EpochRepo>) returns (i: nat)
    requires Total(epochs) > 0
    ensures i < |epochs| && epochs[i].walk != [] && Total(epochs[i + 1..]) == 0
    ensures Total(epochs) == Total(epochs[..i]) + |epochs[i].walk|
    ensures LastEntry(epochs) == (epochs[i].name, Last(epochs[i].walk))
  {
    if Total(epochs[1..]) > 0 {
      i := LastWithCommits(epochs[1..]);
      assert epochs[1..][i + 1..] == epochs[i + 2..];
      assert epochs[..i + 1][0] == epochs[0] && epochs[..i + 1][1..] == epochs[1..][..i];
      i := i + 1;
    } else {
      i := 0;
      assert epochs[..0] == [] && epochs[0 + 1..] == epochs[1..];
      assert epochs[0].walk != [];
    }
  }

  lemma {:induction false} NothingInEmpty(epochs: seq<EpochRepo>, g: nat)
    requires Total(epochs) == 0
    ensures FreshEmails(epochs, g) == []
  {
    EmptyTail(epochs, g);
  }

  /** The archive is complete, and then epochs appear behind it: the next run archives exactly what a
      fresh run archives of them, numbered on. */
  lemma NewEpochs(after: Inbox, earlier: seq<EpochRepo>, more: seq<EpochRepo>)
    requires EpochsToUse(after, V1_LABEL) == earlier + more && IncreasingNames(earlier + more)
    requires EndsComplete(earlier, 0) && ValidEpochs(earlier) && Total(earlier) <= Decimal.USIZE_MAX
    ensures FreshEmails(earlier, 0) != []
    ensures RunFrom(after, Last(FreshEmails(earlier, 0)).emailId) == FreshEmails(more, Total(earlier))
  {
    hide EmailId.Format, RunFrom, FreshEmails, EndsComplete, LastEntry, DistinctShas, IncreasingNames, Continued,
      EmailsOf;
    LastFreshEmail(earlier, 0);
    var i := LastWithCommits(earlier);
    var e, rest := earlier[i], earlier[i + 1..];
    assert earlier == earlier[..i] + [e] + rest;
    assert earlier + more == earlier[..i] + [e] + (rest + more);
    var s := Progress(Total(earlier), |e.walk| - 1);
    ResumeThenLater(after, earlier[..i], e, rest + more, s);
    assert e.walk[0..0] == [];
    NoEmails(s.position, e.name);
    NoLeadIsFresh(rest + more, s.position);
    FreshConcat(rest, more, s.position);
    NothingInEmpty(rest, s.position);
    assert [] + FreshEmails(more, s.position) == FreshEmails(more, s.position);
  }

  /** An inbox before each of several runs, with further epochs each time, and complete each time. */
  ghost predicate EpochHistory(inboxes: seq<Inbox>, stages: seq<seq<EpochRepo>>) {
    && |inboxes| == |stages| > 0
    && (forall i :: 0 <= i < |stages| ==> EpochsToUse(inboxes[i], V1_LABEL) == stages[i] && IncreasingNames(stages[i]))
    && (forall i :: 0 < i < |stages| ==> stages[i - 1] <= stages[i])
    && (forall i :: 0 <= i < |stages| ==>
          EndsComplete(stages[i], 0) && ValidEpochs(stages[i]) && Total(stages[i]) <= Decimal.USIZE_MAX)
  }

  /** All that the runs up to `i` archive together. */
  function RunsUpTo(inboxes: seq<Inbox>, i: nat): seq<EmailData>
    requires i < |inboxes|
  {
    if i == 0 then RunOf(inboxes, 0) else RunsUpTo(inboxes, i - 1) + RunOf(inboxes, i)
  }

  /** Run after run, while epochs are added, is one fresh run over them all, numbers included. */
  lemma {:induction false} EpochByEpochIsFresh(inboxes: seq<Inbox>, stages: seq<seq<EpochRepo>>, i: nat)
    requires EpochHistory(inboxes, stages) && i < |inboxes|
    ensures RunsUpTo(inboxes, i) == FreshEmails(stages[i], 0) != []
    ensures StoredAfter(inboxes, i) == Last(FreshEmails(stages[i], 0)).emailId
  {
    hide FreshEmails, RunFrom, PlanEmails, EndsComplete, IncreasingNames, ValidEpochs, EpochsToUse;
    if i == 0 {
      FreshRun(stages[0], 0);
      LastFreshEmail(stages[0], 0);
      assert FirstRun(inboxes[0], None) == FreshEmails(stages[0], 0);
    } else {
      EpochByEpochIsFresh(inboxes, stages, i - 1);
      var done, now := stages[i - 1], stages[i];
      assert now == done + now[|done|..];
      NewEpochs(inboxes[i], done, now[|done|..]);
      FreshConcat(done, now[|done|..], 0);
    }
  }

  // ----- a first run, stopped in any epoch

  lemma {:induction false} FirstRunStopped(
    earlier: seq<EpochRepo>, e: EpochRepo, later: seq<EpochRepo>, g: nat, stop: nat)
    requires stop <= |e.walk|
    ensures PlanEmails(Plan(earlier + [e] + later, None, g, g), None, PollsFor(earlier, Some(stop)))
         == FreshEmails(earlier, g)
            + EmailsOf(e.walk[..Kept(g + Total(earlier), |e.walk|, Some(stop))], g + Total(earlier), e.name)
    decreases |earlier|
  {
    hide PlanEmails, EmailsOf, Dropped, Kept, PollsFor;
    var all := earlier + [e] + later;
    if earlier == [] {
      assert all == [e] + later;
      StopsIn(e, later, g, stop);
    } else {
      var rest := earlier[1..];
      assert all[1..] == rest + [e] + later && all[0] == earlier[0];
      FirstRunStopped(rest, e, later, g + |earlier[0].walk|, stop);
      OverFirst(earlier, [e] + later, g, Some(stop));
      assert earlier + ([e] + later) == all && rest + ([e] + later) == rest + [e] + later;
    }
  }

  lemma StopsIn(e: EpochRepo, later: seq<EpochRepo>, g: nat, stop: nat)
    requires stop <= |e.walk|
    ensures PlanEmails(Plan([e] + later, None, g, g), None, PollsFor([], Some(stop)))
         == EmailsOf(e.walk[..Kept(g, |e.walk|, Some(stop))], g, e.name)
  {
    hide PlanEmails, EmailsOf, ResumeSha, IndexOfSha, Task.VisibleAt, Task.PickedAt, PollsOf, Dropped;
    var p, polls := Plan([e] + later, None, g, g), PollsFor([], Some(stop));
    assert ([e] + later)[0] == e && ([e] + later)[1..] == later;
    PlanStep(p, None, polls, []);
    FreshTask(e, g, stop);
    FreshPolls(e);
    var next := NextPlan(p, |FirstTask(p, None).VisibleAt(stop)|);
    NothingAfterStop(NextPlan(p, 0));
    NothingAfterStop(next);
    NoEmails(g, e.name);
    assert [] + PlanEmails(p, None, polls) == PlanEmails(p, None, polls);
  }

  lemma NothingAfterStop(p: Plan)
    ensures PlanEmails(p, None, Some(0)) == []
  {
  }

  /** What a first run stopped in any epoch archives and stores. */
  lemma StoppedStored(inbox: Inbox, earlier: seq<EpochRepo>, e: EpochRepo, behind: seq<EpochRepo>, stop: nat)
    requires EpochsAround(inbox, earlier, e, behind) && stop <= |e.walk|
    ensures var g := Total(earlier);
      var kept := e.walk[..Kept(g, |e.walk|, Some(stop))];
      var first, r := FirstRun(inbox, PollsFor(earlier, Some(stop))), LastMail(kept);
      && first == FreshEmails(earlier, 0) + EmailsOf(kept, g, e.name)
      && (r.Some? ==> StoredBy(first, "") == StoredAt(e, Progress(g + r.value + 1, r.value)))
  {
    hide PlanOf, PlanEmails, FreshEmails, EmailsOf, LastMail, Kept, PollsFor, EmailId.Format, EpochsAround;
    var g := Total(earlier);
    PlanAt(inbox, earlier, e, behind, 0, "");
    FirstRunStopped(earlier, e, behind, 0, stop);
    LastEmail(e.walk[..Kept(g, |e.walk|, Some(stop))], g, e.name);
  }

  /** A first run stopped in any epoch, commits pushed onto that epoch or none, and any epochs behind
      it now: what is stored, the stretch of the epoch the next run takes, and the later epochs. */
  lemma StoppedThenLater(before: Inbox, after: Inbox, earlier: seq<EpochRepo>, e: EpochRepo, behind: seq<EpochRepo>,
                         pushed: EpochRepo, later: seq<EpochRepo>, stop: nat)
    requires EpochsAround(before, earlier, e, behind) && EpochsAround(after, earlier, pushed, later)
    requires Grown(e, pushed) && DistinctShas(pushed.walk) && stop <= |e.walk|
    requires Total(earlier) + |e.walk| <= Decimal.USIZE_MAX
    requires LastMail(e.walk[..Kept(Total(earlier), |e.walk|, Some(stop))]).Some?
    ensures var g, n, k := Total(earlier), |pushed.walk|, |pushed.walk| - |e.walk|;
      var kept := e.walk[..Kept(g, |e.walk|, Some(stop))];
      var first, r := FirstRun(before, PollsFor(earlier, Some(stop))), LastMail(kept).value;
      var s := Progress(g + r + 1, k + r);
      var Span(lo, hi) := Window(g, n, s);
      var reached := Reached(g, n, s);
      && first == FreshEmails(earlier, 0) + EmailsOf(kept, g, e.name)
      && StoredBy(first, "") == StoredAt(pushed, s)
      && RunFrom(after, StoredBy(first, ""))
         == EmailsOf(pushed.walk[lo..hi], s.position, e.name) + Continued(later, reached, SaturatingSub(reached, g + n))
  {
    hide FirstRun, FreshEmails, EmailsOf, LastMail, Kept, PollsFor, EmailId.Format, EpochsAround, RunFrom, Continued,
      Window, DistinctShas, Reached, StoredBy;
    var g, k := Total(earlier), |pushed.walk| - |e.walk|;
    var kept := e.walk[..Kept(g, |e.walk|, Some(stop))];
    var r := LastMail(kept).value;
    StoppedStored(before, earlier, e, behind, stop);
    assert pushed.walk[k..][r] == e.walk[r];
    ResumeThenLater(after, earlier, pushed, later, Progress(g + r + 1, k + r));
  }

  // ----- a stop anywhere

  lemma VisiblePrefix(walk: seq<Commit>, resume: Option<string>, a: nat)
    requires a <= |walk|
    ensures Visible(walk, resume, a) <= Visible(walk, resume, |walk|) && |Visible(walk, resume, a)| <= a
    ensures |Visible(walk, resume, |walk|)| <= PollsOf(walk, resume)
    ensures PollsOf(walk, resume) <= a ==> Visible(walk, resume, a) == Visible(walk, resume, |walk|)
  {
  }

  lemma {:induction false} WantedPrefix(visible: seq<Commit>, k: nat, position: nat, positions: Option<set<nat>>)
    requires k <= |visible|
    ensures Wanted(visible[..k], position, positions) <= Wanted(visible, position, positions)
    ensures |Wanted(visible, position, positions)| <= |visible|
  {
    if visible == [] {
      assert visible[..k] == [];
    } else {
      var older := visible[..|visible| - 1];
      if k == |visible| {
        WantedPrefix(older, 0, position, positions);
        assert visible[..k] == visible;
      } else {
        WantedPrefix(older, k, position, positions);
        assert older[..k] == visible[..k];
      }
    }
  }

  /** One epoch, stopped after `a` polls: the emails so far. */
  lemma StoppedInEpoch(t: Task, a: nat)
    requires a <= |t.epoch.walk|
    ensures var n := |t.epoch.walk|;
      && t.EmailsAt(a) <= t.EmailsAt(n) && |t.EmailsAt(a)| <= a
      && |t.EmailsAt(n)| <= PollsOf(t.epoch.walk, t.resume)
      && (PollsOf(t.epoch.walk, t.resume) <= a ==> t.EmailsAt(a) == t.EmailsAt(n))
  {
    hide EmailsOf, Visible, Wanted, NewCommits, AtHead, PollsOf;
    var n := |t.epoch.walk|;
    var seen, all := t.VisibleAt(a), t.VisibleAt(n);
    VisiblePrefix(t.epoch.walk, t.resume, a);
    assert seen == all[..|seen|];
    WantedPrefix(all, |seen|, t.position, t.positions);
    WantedPrefix(seen, |seen|, t.position, t.positions);
    assert t.PickedAt(a) <= t.PickedAt(n);
    assert t.PickedAt(a) == t.PickedAt(n)[..|t.PickedAt(a)|];
    EmailsOfPrefix(t.PickedAt(n), |t.PickedAt(a)|, t.position, t.epoch.name);
    ArchivedOrLogged(t.PickedAt(a), t.position, t.epoch.name);
    ArchivedOrLogged(t.PickedAt(n), t.position, t.epoch.name);
  }

  /** A run stopped by the flag, fresh or resumed, with a range or without, archives the beginning of
      what it would have archived otherwise, and no more emails than it has polled the flag. */
  lemma {:induction false} StoppedIsPrefix(p: Plan, positions: Option<set<nat>>, polls: Option<nat>)
    ensures PlanEmails(p, positions, polls) <= PlanEmails(p, positions, None)
    ensures polls.Some? ==> |PlanEmails(p, positions, polls)| <= polls.value
    decreases |p.epochs|
  {
    hide PlanEmails, Task.EmailsAt, Task.VisibleAt, ResumeSha, PollsOf;
    if p.epochs == [] || polls == Some(0) {
      if p.epochs == [] {
        PlanDone(p, positions, polls);
      } else {
        PlanStep(p, positions, polls, []);
        assert [] + PlanEmails(p, positions, polls) == PlanEmails(p, positions, polls);
      }
    } else {
      var left, t := AfterPolls(polls, 1), FirstTask(p, positions);
      var n, reached := |t.epoch.walk|, ReachedBy(t.epoch.walk, left);
      PlanStep(p, positions, polls, []);
      PlanStep(p, positions, None, []);
      assert [] + PlanEmails(p, positions, polls) == PlanEmails(p, positions, polls);
      assert [] + PlanEmails(p, positions, None) == PlanEmails(p, positions, None);
      if p.position >= p.before + n {
        StoppedIsPrefix(NextPlan(p, 0), positions, left);
      } else {
        StoppedInEpoch(t, reached);
        var after := AfterPolls(left, PollsOf(t.epoch.walk, t.resume));
        var next := NextPlan(p, |t.VisibleAt(reached)|);
        StoppedIsPrefix(next, positions, after);
        SeenAll(t, left);
        assert [] + t.EmailsAt(reached) == t.EmailsAt(reached) && [] + t.EmailsAt(n) == t.EmailsAt(n);
      }
    }
  }

  /** Either the epoch was seen to its end, or no poll is left. */
  lemma SeenAll(t: Task, left: Option<nat>)
    ensures var reached := ReachedBy(t.epoch.walk, left);
      || AfterPolls(left, PollsOf(t.epoch.walk, t.resume)) == Some(0)
      || (t.VisibleAt(reached) == t.VisibleAt(|t.epoch.walk|) && t.EmailsAt(reached) == t.EmailsAt(|t.epoch.walk|))
  {
    hide Task.EmailsAt, Visible, PollsOf;
    var reached := ReachedBy(t.epoch.walk, left);
    StoppedInEpoch(t, reached);
    VisiblePrefix(t.epoch.walk, t.resume, reached);
    PollsWithin(t.epoch.walk, t.resume);
  }

  lemma PollsWithin(walk: seq<Commit>, resume: Option<string>)
    ensures PollsOf(walk, resume) <= |walk|
  {
  }
}
