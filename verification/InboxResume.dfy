/** What a run over a public inbox does with the progress an earlier run stored. */
module InboxResume {
  import opened Prelude
  import opened EmailStore
  import opened PublicInbox
  import opened Epochs
  import opened InboxTheorems
  import opened ProgressFile
  import opened Shutdown
  import Decimal
  import EmailId
  import AW = ArchiveWriter

  // ----- restart after a complete run

  /** The last commit of the inbox is readable and a fresh run does not drop it. */
  predicate EndsComplete(epochs: seq<EpochRepo>, g: nat) {
    epochs != [] &&
    var walk, rest := epochs[0].walk, epochs[1..];
    if Total(rest) > 0 then EndsComplete(rest, g + |walk|)
    else walk != [] && Dropped(|walk|, g) == 0 && Last(walk).mail.Some?
  }

  /** The name of the last epoch that has commits, and its last commit. */
  function LastEntry(epochs: seq<EpochRepo>): (string, Commit)
    requires Total(epochs) > 0
  {
    var rest := epochs[1..];
    if Total(rest) > 0 then LastEntry(rest) else (epochs[0].name, Last(epochs[0].walk))
  }

  lemma {:induction false} EmptyTail(epochs: seq<EpochRepo>, g: nat)
    requires Total(epochs) == 0
    ensures FreshEmails(epochs, g) == []
    ensures forall sha: Option<string>, position: nat, positions: Option<set<nat>>, polls: Option<nat>
      | position >= g ::
      PlanEmails(Plan(epochs, sha, position, g), positions, polls) == []
    decreases |epochs|
  {
    if epochs != [] {
      EmptyTail(epochs[1..], g);
      assert epochs[0].walk == [];
    }
  }

  /** What a fresh run stores last, when it ends complete. */
  lemma {:induction false} LastFreshEmail(epochs: seq<EpochRepo>, g: nat)
    requires EndsComplete(epochs, g)
    ensures Total(epochs) > 0 && FreshEmails(epochs, g) != []
    ensures Last(FreshEmails(epochs, g)).emailId
         == EmailId.Format(g + Total(epochs), LastEntry(epochs).0, LastEntry(epochs).1.sha)
    decreases |epochs|
  {
    hide EmailId.Format;
    var walk, rest := epochs[0].walk, epochs[1..];
    if Total(rest) > 0 {
      LastFreshEmail(rest, g + |walk|);
    } else {
      EmptyTail(rest, g + |walk|);
      assert walk[..|walk| - 0] == walk;
    }
  }

  lemma {:induction false} LastEntryName(epochs: seq<EpochRepo>)
    requires Total(epochs) > 0
    ensures exists i :: 0 <= i < |epochs| && epochs[i].name == LastEntry(epochs).0
  {
    if Total(epochs[1..]) > 0 {
      LastEntryName(epochs[1..]);
      var i :| 0 <= i < |epochs[1..]| && epochs[1..][i].name == LastEntry(epochs[1..]).0;
      assert epochs[i + 1].name == LastEntry(epochs).0;
    }
  }

  lemma {:induction false} KeepsAll(epochs: seq<EpochRepo>, skip: string)
    requires IncreasingNames(epochs) && Decimal.ParseUsize(skip).Some? && skip != V1_LABEL
    requires forall i :: 0 <= i < |epochs| ==>
      Decimal.ParseUsize(epochs[i].name).value >= Decimal.ParseUsize(skip).value
    ensures EpochsFrom(epochs, skip) == Some(epochs)
  {
    hide Decimal.ParseUsize;
    if epochs != [] {
      KeepsAll(epochs[1..], skip);
      assert epochs == [epochs[0]] + epochs[1..];
    }
  }

  /** An epoch older than the resume point is left out of the plan and counted. */
  lemma SkipsOlder(epochs: seq<EpochRepo>, skip: string)
    requires epochs != [] && skip != V1_LABEL && EpochsFrom(epochs[1..], skip).Some?
    requires Decimal.ParseUsize(epochs[0].name).Some? && Decimal.ParseUsize(skip).Some?
    requires Decimal.ParseUsize(epochs[0].name).value < Decimal.ParseUsize(skip).value
    ensures EpochsFrom(epochs, skip) == EpochsFrom(epochs[1..], skip)
    ensures CommitsBefore(epochs, skip) == |epochs[0].walk| + CommitsBefore(epochs[1..], skip)
  {
    hide Decimal.ParseUsize;
  }

  lemma LastEntryIsLater(epochs: seq<EpochRepo>)
    requires IncreasingNames(epochs) && epochs != [] && Total(epochs[1..]) > 0
    ensures LastEntry(epochs) == LastEntry(epochs[1..]) && IncreasingNames(epochs[1..])
    ensures Decimal.ParseUsize(epochs[0].name).Some? && Decimal.ParseUsize(LastEntry(epochs).0).Some?
    ensures Decimal.ParseUsize(epochs[0].name).value < Decimal.ParseUsize(LastEntry(epochs).0).value
  {
    hide Decimal.ParseUsize;
    var rest := epochs[1..];
    LastEntryName(rest);
    var i :| 0 <= i < |rest| && rest[i].name == LastEntry(rest).0;
    assert epochs[i + 1] == rest[i];
  }

  /** With commits in the first epoch only, everything is kept and nothing lies before it. */
  lemma FirstIsLast(epochs: seq<EpochRepo>)
    requires IncreasingNames(epochs) && epochs != [] && Total(epochs[1..]) == 0 && epochs[0].walk != []
    ensures LastEntry(epochs).0 == epochs[0].name != V1_LABEL
    ensures EpochsFrom(epochs, epochs[0].name) == Some(epochs) && CommitsBefore(epochs, epochs[0].name) == 0
  {
    hide Decimal.ParseUsize;
    V1IsNotANumber();
    KeepsAll(epochs, epochs[0].name);
  }

  ghost predicate Covered(epochs: seq<EpochRepo>, skip: string, g: nat, sha: Option<string>,
                          positions: Option<set<nat>>, polls: Option<nat>) {
    && EpochsFrom(epochs, skip).Some?
    && PlanEmails(Plan(EpochsFrom(epochs, skip).value, sha, g + Total(epochs), g + CommitsBefore(epochs, skip)),
                  positions, polls) == []
  }

  /** Resuming at the name of the last epoch with commits: the plan starts there, counts what lies
      before it, and finds everything done. */
  lemma {:induction false} NothingLeft(epochs: seq<EpochRepo>, g: nat, sha: Option<string>,
                                       positions: Option<set<nat>>, polls: Option<nat>)
    requires IncreasingNames(epochs) && Total(epochs) > 0
    ensures LastEntry(epochs).0 != V1_LABEL && Covered(epochs, LastEntry(epochs).0, g, sha, positions, polls)
    decreases |epochs|
  {
    hide Decimal.ParseUsize, PlanEmails, IncreasingNames, EpochsFrom, CommitsBefore, LastEntry;
    var walk, rest := epochs[0].walk, epochs[1..];
    if Total(rest) > 0 {
      LastEntryIsLater(epochs);
      NothingLeft(rest, g + |walk|, sha, positions, polls);
      SkipsOlder(epochs, LastEntry(rest).0);
    } else {
      FirstIsLast(epochs);
      PlanStep(Plan(epochs, sha, g + |walk|, g), positions, polls, []);
      EmptyTail(rest, g + |walk|);
    }
  }

  /** Resuming panics exactly when the stored epoch is not "all" and it or some epoch of the inbox
      has a name that is not a number. */
  lemma {:induction false} ResumePanicsIff(epochs: seq<EpochRepo>, skip: string)
    ensures EpochsFrom(epochs, skip).None? <==>
            skip != V1_LABEL && epochs != []
            && (Decimal.ParseUsize(skip).None? || exists e :: e in epochs && Decimal.ParseUsize(e.name).None?)
  {
    hide Decimal.ParseUsize;
    if epochs != [] {
      ResumePanicsIff(epochs[1..], skip);
      assert epochs == [epochs[0]] + epochs[1..];
    }
  }

  /** Resuming in the last epoch leaves just that one, behind all others. */
  lemma {:induction false} FromLast(earlier: seq<EpochRepo>, e: EpochRepo)
    requires OrderedNames(earlier + [e])
    ensures EpochsFrom(earlier + [e], e.name) == Some([e])
    ensures CommitsBefore(earlier + [e], e.name) == Total(earlier)
  {
    hide Decimal.ParseUsize;
    V1IsNotANumber();
    var all := earlier + [e];
    if earlier == [] {
      assert all == [e] && [e][1..] == [] && [e] + [] == [e];
      assert EpochsFrom([e][1..], e.name) == Some([]);
    } else {
      FirstIsOlder(earlier, e);
      assert all[1..] == earlier[1..] + [e] && all[0] == earlier[0];
      FromLast(earlier[1..], e);
    }
  }

  lemma FirstIsOlder(earlier: seq<EpochRepo>, e: EpochRepo)
    requires OrderedNames(earlier + [e]) && earlier != []
    ensures OrderedNames(earlier[1..] + [e]) && Decimal.ParseUsize(earlier[0].name).Some?
    ensures e.name != V1_LABEL ==> Decimal.ParseUsize(e.name).Some?
    ensures e.name != V1_LABEL ==> Decimal.ParseUsize(earlier[0].name).value < Decimal.ParseUsize(e.name).value
  {
    hide Decimal.ParseUsize;
    V1IsNotANumber();
    var all, rest := earlier + [e], earlier[1..] + [e];
    assert all[0] == earlier[0] && all[|earlier|] == e && all[..|earlier|] == earlier;
    assert rest == all[1..] && rest[..|rest| - 1] == earlier[1..];
  }

  lemma {:induction false} LastEntryAtEnd(earlier: seq<EpochRepo>, e: EpochRepo)
    ensures Total(earlier + [e]) == Total(earlier) + |e.walk|
    ensures e.walk != [] ==> LastEntry(earlier + [e]) == (e.name, Last(e.walk))
    ensures e.walk == [] && Total(earlier) > 0 ==> LastEntry(earlier + [e]) == LastEntry(earlier)
  {
    var all := earlier + [e];
    if earlier == [] {
      assert all[1..] == [];
    } else {
      assert all[1..] == earlier[1..] + [e];
      LastEntryAtEnd(earlier[1..], e);
    }
  }

  lemma NothingLeftInLast(e: EpochRepo, sha: Option<string>, position: nat, before: nat,
                          positions: Option<set<nat>>, polls: Option<nat>)
    requires position >= before + |e.walk|
    ensures PlanEmails(Plan([e], sha, position, before), positions, polls) == []
  {
    hide PlanEmails, AfterPolls;
    var p := Plan([e], sha, position, before);
    PlanStep(p, positions, polls, []);
    assert [e][1..] == [];
    PlanDone(NextPlan(p, 0), positions, AfterPolls(polls, 1));
    assert [] + PlanEmails(p, positions, polls) == PlanEmails(p, positions, polls);
  }

  /** What a resumed run plans, in terms of the epochs it uses. */
  lemma PlanFrom(inbox: Inbox, position: nat, name: string, sha: string)
    ensures var epochs := EpochsToUse(inbox, V1_LABEL);
      var rest := EpochsFrom(epochs, name);
      rest.Some? && (inbox.epochs == [] ==> name == V1_LABEL) ==>
        PlanOf(inbox, Some(EmailId.ParsedEmailId(position, name, sha)))
          == Some(Plan(rest.value, Some(sha), position, CommitsBefore(epochs, name)))
    ensures EpochsFrom(EpochsToUse(inbox, V1_LABEL), name).None? ==>
        PlanOf(inbox, Some(EmailId.ParsedEmailId(position, name, sha))) == None
  {
    hide EpochsFrom;
  }

  /** Restart: after a fresh run that reached the last commit of an inbox, with any number of
      epochs, "all" among them, or none, the next run archives nothing, whatever its range and
      whenever it is stopped. It panics when an empty epoch "all" stands behind the numbered ones. */
  lemma RestartArchivesNothing(inbox: Inbox, positions: Option<set<nat>>, polls: Option<nat>)
    requires var epochs := EpochsToUse(inbox, V1_LABEL);
      OrderedNames(epochs) && EndsComplete(epochs, 0) && Total(epochs) <= Decimal.USIZE_MAX
    ensures var epochs := EpochsToUse(inbox, V1_LABEL);
      && FreshEmails(epochs, 0) != []
      && var plan := PlanOf(inbox, EmailId.Parse(Last(FreshEmails(epochs, 0)).emailId));
         && (plan.None? <==> Last(epochs).name == V1_LABEL && Last(epochs).walk == [])
         && (plan.Some? ==> PlanEmails(plan.value, positions, polls) == [])
  {
    hide Decimal.ParseUsize, PlanEmails, EmailId.Format, EmailId.Parse, CommitsBefore, EpochsFrom, PlanOf,
      IncreasingNames, LastEntry, FreshEmails, EndsComplete;
    var epochs := EpochsToUse(inbox, V1_LABEL);
    LastFreshEmail(epochs, 0);
    var (name, c) := LastEntry(epochs);
    RestartPlan(epochs, c.sha, positions, polls);
    NameHasNoDash(name);
    EmailId.ParseInvertsFormat(Total(epochs), name, c.sha);
    PlanFrom(inbox, Total(epochs), name, c.sha);
    if inbox.epochs == [] {
      assert epochs == [] + [inbox.bare.(name := V1_LABEL)];
      LastEntryAtEnd([], inbox.bare.(name := V1_LABEL));
      EmptyTotal();
    }
  }

  lemma EmptyTotal()
    ensures Total([]) == 0
  {
  }

  lemma RestartPlan(epochs: seq<EpochRepo>, sha: string, positions: Option<set<nat>>, polls: Option<nat>)
    requires OrderedNames(epochs) && Total(epochs) > 0
    ensures Decimal.ParseUsize(LastEntry(epochs).0).Some? || LastEntry(epochs).0 == V1_LABEL
    ensures EpochsFrom(epochs, LastEntry(epochs).0).None? <==> Last(epochs).name == V1_LABEL && Last(epochs).walk == []
    ensures EpochsFrom(epochs, LastEntry(epochs).0).Some? ==>
      Covered(epochs, LastEntry(epochs).0, 0, Some(sha), positions, polls)
  {
    hide Decimal.ParseUsize, PlanEmails, CommitsBefore, EpochsFrom;
    V1IsNotANumber();
    LastEntryName(epochs);
    if IncreasingNames(epochs) {
      NothingLeft(epochs, 0, Some(sha), positions, polls);
    } else {
      var earlier, e := epochs[..|epochs| - 1], Last(epochs);
      assert epochs == earlier + [e];
      LastEntryAtEnd(earlier, e);
      FromLast(earlier, e);
      if e.walk == [] {
        LastEntryName(earlier);
        ResumePanicsIff(epochs, LastEntry(epochs).0);
      } else {
        NothingLeftInLast(e, Some(sha), Total(epochs), Total(earlier), positions, polls);
      }
    }
  }

  // ----- the same on disk

  predicate ShasOfLength(epochs: seq<EpochRepo>, n: nat) {
    forall i, j :: 0 <= i < |epochs| && 0 <= j < |epochs[i].walk| ==> |epochs[i].walk[j].sha| == n
  }

  predicate NamesNotShorter(epochs: seq<EpochRepo>) {
    forall i, j :: 0 <= i < j < |epochs| ==> |epochs[i].name| <= |epochs[j].name|
  }

  lemma {:induction false} EntriesNotShorter(epochs: seq<EpochRepo>, n: nat, a: nat, b: nat)
    requires ShasOfLength(epochs, n) && NamesNotShorter(epochs) && a <= b < |AllCommits(epochs)|
    ensures var all := AllCommits(epochs);
      |all[a].0| <= |all[b].0| && |all[a].1.sha| == n == |all[b].1.sha|
    ensures |epochs[0].name| <= |AllCommits(epochs)[b].0|
    decreases |epochs|
  {
    hide AllCommits;
    NoCommits();
    AllCommitsSplit(epochs);
    var k, rest, all := |epochs[0].walk|, epochs[1..], AllCommits(epochs);
    if b >= k {
      assert all[k..][b - k] == all[b];
      EntriesNotShorter(rest, n, b - k, b - k);
      if a >= k {
        assert all[k..][a - k] == all[a];
        EntriesNotShorter(rest, n, a - k, b - k);
      }
    }
  }

  /** Identifiers rise in number and never get shorter, so every update of the progress file on a
      fresh run replaces the whole text. */
  lemma FreshIdsNeverShorter(yaml: Yaml, epochs: seq<EpochRepo>, n: nat)
    requires ShasOfLength(epochs, n) && NamesNotShorter(epochs)
    requires yaml.FaithfulOn(iset id | id in Ids(FreshEmails(epochs, 0)))
    ensures NeverShorter(yaml, None, Ids(FreshEmails(epochs, 0)))
  {
    hide Yaml.FaithfulOn, FreshEmails, NeverShorter, AllCommits, EmailId.Format;
    var emails, ns := FreshEmails(epochs, 0), FreshNumbers(epochs, 0);
    var ids := Ids(emails);
    FreshRunIsNumbered(epochs, 0);
    forall i, j | 0 <= i < j < |ids| ensures |ids[i]| <= |ids[j]| {
      EntriesNotShorter(epochs, n, ns[i] - 1, ns[j] - 1);
      FormatLength(ns[i], AllCommits(epochs)[ns[i] - 1], ns[j], AllCommits(epochs)[ns[j] - 1]);
    }
    MonotoneLengths(yaml, None, ids, iset id | id in ids);
  }

  lemma FormatLength(a: nat, x: (string, Commit), b: nat, y: (string, Commit))
    requires a <= b && |x.0| <= |y.0| && |x.1.sha| == |y.1.sha|
    ensures |EmailId.Format(a, x.0, x.1.sha)| <= |EmailId.Format(b, y.0, y.1.sha)|
  {
    Decimal.RenderLengthMonotone(a, b);
  }

  /** No epoch with commits has a longer name than the last of them. */
  predicate LastNameLongest(epochs: seq<EpochRepo>) {
    Total(epochs) > 0 ==>
      forall i :: 0 <= i < |epochs| && epochs[i].walk != [] ==> |epochs[i].name| <= |LastEntry(epochs).0|
  }

  lemma {:induction false} EntryOfEpoch(epochs: seq<EpochRepo>, a: nat) returns (i: nat, j: nat)
    requires a < |AllCommits(epochs)|
    ensures i < |epochs| && j < |epochs[i].walk| && AllCommits(epochs)[a] == (epochs[i].name, epochs[i].walk[j])
  {
    hide AllCommits;
    NoCommits();
    AllCommitsSplit(epochs);
    var k := |epochs[0].walk|;
    if a < k {
      i, j := 0, a;
    } else {
      assert AllCommits(epochs)[k..][a - k] == AllCommits(epochs)[a];
      i, j := EntryOfEpoch(epochs[1..], a - k);
      i := i + 1;
    }
  }

  /** For the end of a run it is enough that the last name is not the shorter one. */
  lemma FreshLastIsLongest(yaml: Yaml, epochs: seq<EpochRepo>, n: nat)
    requires EndsComplete(epochs, 0) && ShasOfLength(epochs, n) && LastNameLongest(epochs)
    requires yaml.FaithfulOn(iset id | id in Ids(FreshEmails(epochs, 0)))
    ensures var emails := FreshEmails(epochs, 0);
      emails != [] && NothingLonger(yaml, None, Ids(emails), |yaml.render(Last(emails).emailId)|)
  {
    hide Yaml.FaithfulOn, FreshEmails, AllCommits, EmailId.Format, EndsComplete, Numbered, LastEntry;
    var emails, ns := FreshEmails(epochs, 0), FreshNumbers(epochs, 0);
    var ids := Ids(emails);
    FreshRunIsNumbered(epochs, 0);
    LastFreshEmail(epochs, 0);
    var last := Last(emails).emailId;
    assert last == Last(ids);
    forall i | 0 <= i < |ids| ensures |yaml.render(ids[i])| <= |yaml.render(last)| {
      LastNotShorter(epochs, n, i);
      RenderMonotone(yaml, (iset id | id in ids), ids[i], last);
    }
  }

  lemma LastNotShorter(epochs: seq<EpochRepo>, n: nat, i: nat)
    requires EndsComplete(epochs, 0) && ShasOfLength(epochs, n) && LastNameLongest(epochs)
    requires i < |FreshEmails(epochs, 0)|
    ensures FreshEmails(epochs, 0) != []
      && |FreshEmails(epochs, 0)[i].emailId| <= |Last(FreshEmails(epochs, 0)).emailId|
  {
    hide FreshEmails, AllCommits, EmailId.Format, EndsComplete;
    var ns, all := FreshNumbers(epochs, 0), AllCommits(epochs);
    FreshRunIsNumbered(epochs, 0);
    LastFreshEmail(epochs, 0);
    var p, q := EntryOfEpoch(epochs, ns[i] - 1);
    LastEntryIn(epochs, n);
    FormatLength(ns[i], all[ns[i] - 1], Total(epochs), LastEntry(epochs));
  }

  lemma {:induction false} LastEntryIn(epochs: seq<EpochRepo>, n: nat)
    requires ShasOfLength(epochs, n) && Total(epochs) > 0
    ensures |LastEntry(epochs).1.sha| == n
  {
    if Total(epochs[1..]) > 0 {
      LastEntryIn(epochs[1..], n);
    }
  }

  /** What the next run reads back is the last archived identifier, whatever the store, provided the
      rendering of no earlier one was longer. */
  lemma StoredIsLast(mode: AW.WriteMode, yaml: Yaml, file: Option<string>, emails: seq<EmailData>)
    requires emails != [] && yaml.parse(yaml.render(Last(emails).emailId)) == Some(Last(emails).emailId)
    requires NothingLonger(yaml, file, Ids(emails), |yaml.render(Last(emails).emailId)|)
    ensures ResumeInfo(yaml, AW.FinalProgress(mode, yaml, file, emails)) == EmailId.Parse(Last(emails).emailId)
  {
    hide EmailId.Parse, AW.FinalProgress, AW.Committed, AW.Pending;
    AW.CommittedThenPending(mode, emails);
    AW.IdsConcat(AW.Committed(mode, emails), AW.Pending(mode, emails));
    AW.FinalProgressExactIff(mode, yaml, file, emails);
    NothingLongerPrefix(yaml, file, Ids(AW.Committed(mode, emails)), Ids(AW.Pending(mode, emails)),
                        |yaml.render(Last(emails).emailId)|);
  }

  lemma NothingLongerPrefix(yaml: Yaml, file: Option<string>, a: seq<string>, b: seq<string>, bound: nat)
    requires NothingLonger(yaml, file, a + b, bound)
    ensures NothingLonger(yaml, file, a, bound)
  {
    assert forall i :: 0 <= i < |a| ==> (a + b)[i] == a[i];
  }

  /** A complete fresh run followed by a restart, through the progress file and either store. */
  lemma RestartFromDisk(mode: AW.WriteMode, yaml: Yaml, inbox: Inbox, positions: Option<set<nat>>, polls: Option<nat>)
    requires var epochs := EpochsToUse(inbox, V1_LABEL);
      OrderedNames(epochs) && EndsComplete(epochs, 0) && Total(epochs) <= Decimal.USIZE_MAX
    requires var emails := FreshEmails(EpochsToUse(inbox, V1_LABEL), 0);
      emails != [] ==>
        && yaml.parse(yaml.render(Last(emails).emailId)) == Some(Last(emails).emailId)
        && NothingLonger(yaml, None, Ids(emails), |yaml.render(Last(emails).emailId)|)
    ensures var epochs := EpochsToUse(inbox, V1_LABEL);
      var plan := PlanOf(inbox, ResumeInfo(yaml, AW.FinalProgress(mode, yaml, None, FreshEmails(epochs, 0))));
      && (plan.None? <==> Last(epochs).name == V1_LABEL && Last(epochs).walk == [])
      && (plan.Some? ==> PlanEmails(plan.value, positions, polls) == [])
  {
    hide FreshEmails, PlanEmails, EmailId.Parse, AW.FinalProgress, OrderedNames, EndsComplete, PlanOf, ResumeInfo,
      NothingLonger, EpochsToUse;
    RestartArchivesNothing(inbox, positions, polls);
    StoredIsLast(mode, yaml, None, FreshEmails(EpochsToUse(inbox, V1_LABEL), 0));
  }

  // ----- the last epoch: exactly what a resumed run processes

  /** The epochs of an inbox, or the one repository called "all" in its place, end with `e`. */
  ghost predicate EndsWithEpoch(inbox: Inbox, earlier: seq<EpochRepo>, e: EpochRepo) {
    EpochsToUse(inbox, V1_LABEL) == earlier + [e] && OrderedNames(earlier + [e])
  }

  /** Resuming in the last epoch plans just that one, behind all others. */
  lemma PlanOfLast(inbox: Inbox, earlier: seq<EpochRepo>, e: EpochRepo, position: nat, sha: string)
    requires EndsWithEpoch(inbox, earlier, e)
    ensures PlanOf(inbox, Some(EmailId.ParsedEmailId(position, e.name, sha)))
         == Some(Plan([e], Some(sha), position, Total(earlier)))
    ensures PlanOf(inbox, None) == Some(Plan(earlier + [e], None, 0, 0))
  {
    hide OrderedNames, EpochsFrom, CommitsBefore;
    FromLast(earlier, e);
    if inbox.epochs == [] {
      assert |earlier + [e]| == 1 && (earlier + [e])[0].name == V1_LABEL;
    }
    PlanFrom(inbox, position, e.name, sha);
  }

  /** The commits a run resumed at `sha` with the given position processes in an epoch that has
      `before` commits in front of it, in order. */
  function Resumed(e: EpochRepo, before: nat, position: nat, sha: string): seq<Commit> {
    if position >= before + |e.walk| then []
    else Task(e, ResumeSha(e, Some(sha)), position, None).PickedAt(|e.walk|)
  }

  lemma LastEpochPlan(e: EpochRepo, before: nat, position: nat, sha: string)
    ensures PlanEmails(Plan([e], Some(sha), position, before), None, None)
         == EmailsOf(Resumed(e, before, position, sha), position, e.name)
  {
    hide EmailsOf, PlanEmails, Task.PickedAt, Task.VisibleAt, ResumeSha;
    var p := Plan([e], Some(sha), position, before);
    PlanStep(p, None, None, []);
    var rest := [e][1..];
    assert rest == [];
    var t := FirstTask(p, None);
    PlanDone(NextPlan(p, 0), None, None);
    PlanDone(NextPlan(p, |t.VisibleAt(|e.walk|)|), None, None);
    NoEmails(position, e.name);
    assert [] + PlanEmails(p, None, None) == PlanEmails(p, None, None);
  }

  /** The closed form of a resumed run over the last epoch, for any stored position and any stored
      commit of the walk: nothing, everything behind the head, or the commits before the stored one,
      less as many as the code takes for old. */
  lemma ResumedClosedForm(e: EpochRepo, before: nat, position: nat, j: nat)
    requires j < |e.walk| && DistinctShas(e.walk)
    ensures Resumed(e, before, position, e.walk[j].sha) ==
      if position >= before + |e.walk| then []
      else if j == 0 then e.walk[1..]
      else e.walk[..j - if j > position >= 2 then position - 1 else 0]
  {
    hide Visible, Wanted, IndexOfSha, DistinctShas, ResumeSha;
    ResumedVisible(e, j);
    WantedAll(Visible(e.walk, Some(e.walk[j].sha), |e.walk|), position);
  }

  /** What a run resumed at the commit of index `j` sees of its epoch. */
  lemma ResumedVisible(e: EpochRepo, j: nat)
    requires j < |e.walk| && DistinctShas(e.walk)
    ensures var sha := Some(e.walk[j].sha);
      && ResumeSha(e, sha) == sha && IndexOfSha(e.walk, sha) == j
      && Visible(e.walk, sha, |e.walk|) == if j == 0 then e.walk[1..] else e.walk[..j]
  {
    hide DistinctShas;
    ResumeCommitIsUnique(e.walk, Some(e.walk[j].sha), j);
  }

  /** New commits on top: whatever number `position` is stored with the commit of old index `j`, and
      however many commits earlier epochs have, the next run processes exactly the `k` new ones if and
      only if the position covers everything and nothing is new, or `j` is what the code guesses it
      to be. */
  lemma PushedExactlyIff(e: EpochRepo, g: nat, position: nat, k: nat, j: nat)
    requires DistinctShas(e.walk) && k + j < |e.walk|
    ensures Resumed(e, g, position, e.walk[k + j].sha) == e.walk[..k]
            <==> if position >= g + |e.walk| then k == 0
                 else if k + j == 0 then |e.walk| == 1
                 else j == if k + j > position >= 2 then position - 1 else 0
  {
    hide Resumed, DistinctShas;
    ResumedClosedForm(e, g, position, k + j);
  }

  /** One new message on an archive of two: the run fetches the new commit and the newer old one
      again. */
  lemma OneOntoTwo(e: EpochRepo)
    requires DistinctShas(e.walk) && |e.walk| == 3
    ensures Resumed(e, 0, 2, Last(e.walk).sha) == e.walk[..2]
  {
    ResumedClosedForm(e, 0, 2, 2);
  }

  /** The run after an interrupted one repeats work: it takes again the commits before the stored one
      and none of those the first run did not reach. */
  lemma InterruptedResumeRepeats(e: EpochRepo, m: nat)
    requires DistinctShas(e.walk) && 1 < m < |e.walk|
    ensures Resumed(e, 0, m, e.walk[m - 1].sha) == e.walk[..m - 1]
  {
    ResumedClosedForm(e, 0, m, m - 1);
  }

  lemma InterruptedTask(e: EpochRepo, m: nat)
    requires m <= |e.walk|
    ensures var t := Task(e, ResumeSha(e, None), 0, None);
      t.VisibleAt(m) == e.walk[..m] && t.PickedAt(m) == e.walk[..m]
  {
    hide Wanted;
    NoResume(e.walk);
    WantedAll(e.walk[..m], 0);
  }

  /** How such a state comes about: with the flag raised after `m` commits, a first run archives
      the newest `m` and no more. */
  lemma InterruptedFreshRun(e: EpochRepo, m: nat)
    requires m <= |e.walk| && e.walk != []
    ensures PlanEmails(Plan([e], None, 0, 0), None, Some(m + 1)) == EmailsOf(e.walk[..m], 0, e.name)
  {
    hide EmailsOf, PlanEmails, ResumeSha, Task.VisibleAt, Task.PickedAt, PollsOf;
    var p, rest := Plan([e], None, 0, 0), [e][1..];
    assert rest == [];
    PlanStep(p, None, Some(m + 1), []);
    InterruptedTask(e, m);
    PlanDone(NextPlan(p, m), None, AfterPolls(Some(m), PollsOf(e.walk, ResumeSha(e, None))));
    assert [] + PlanEmails(p, None, Some(m + 1)) == PlanEmails(p, None, Some(m + 1));
    assert [] + EmailsOf(e.walk[..m], 0, e.name) == EmailsOf(e.walk[..m], 0, e.name);
  }
}
