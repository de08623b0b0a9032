/** The public-inbox worker: walking the epochs of an inbox newest commit first. */
module PublicInbox {
  import opened Prelude
  import opened EmailStore
  import opened Shutdown
  import ProgressFile
  import Decimal
  import Text
  import EmailId
  import RangeInputs
  import AW = ArchiveWriter

  /** A commit and, when its tree has a readable message, that message. */
  datatype Commit = Commit(sha: string, mail: Option<string>)

  /** An epoch repository: the walk from its head, newest first, and the ids of further objects
      that resolve but are not on the walk. */
  datatype EpochRepo = EpochRepo(name: string, walk: seq<Commit>, detached: set<string>)

  ghost predicate DistinctShas(walk: seq<Commit>) {
    forall i, j :: 0 <= i < j < |walk| ==> walk[i].sha != walk[j].sha
  }

  ghost predicate ValidEpochs(epochs: seq<EpochRepo>) {
    forall i :: 0 <= i < |epochs| ==> DistinctShas(epochs[i].walk)
  }

  // ----- what one epoch contributes

  /** Position of the first commit with the given id, or the length of the walk. */
  function IndexOfSha(walk: seq<Commit>, sha: Option<string>): (i: nat)
    ensures i <= |walk|
    ensures i < |walk| ==> sha == Some(walk[i].sha)
    ensures forall j :: 0 <= j < i ==> sha != Some(walk[j].sha)
  {
    if walk == [] || sha == Some(walk[0].sha) then 0 else 1 + IndexOfSha(walk[1..], sha)
  }

  /** The commit to resume at, if the repository knows the requested id. */
  function ResumeSha(epoch: EpochRepo, target: Option<string>): Option<string> {
    if target.Some? && (target.value in epoch.detached || IndexOfSha(epoch.walk, target) < |epoch.walk|) then target
    else None
  }

  /** The commit to resume at is the head itself. */
  predicate AtHead(walk: seq<Commit>, resume: Option<string>) {
    resume.Some? && IndexOfSha(walk, resume) == 0
  }

  /** The commits the second pass counts when it is allowed to reach the first `reached` ones:
      those before the resume commit, or, when that is the head, those behind it. */
  function Visible(walk: seq<Commit>, resume: Option<string>, reached: nat): seq<Commit> {
    var seen := Take(walk, reached);
    if AtHead(walk, resume) then (if seen == [] then [] else seen[1..])
    else Take(seen, IndexOfSha(walk, resume))
  }

  /** How many commits count as new: the walk before the resume point, less the already archived
      ones the code assumes to be among them. */
  function NewCommits(walk: seq<Commit>, resume: Option<string>, position: nat): nat {
    var before := IndexOfSha(walk, resume);
    if before == 0 && resume.Some? then |walk|
    else SaturatingSub(before, if before > position then SaturatingSub(position, 1) else 0)
  }

  /** The commits whose global position is wanted; without a range, all of them. */
  function Wanted(visible: seq<Commit>, position: nat, positions: Option<set<nat>>): seq<Commit> {
    if visible == [] then []
    else
      var older := Wanted(visible[..|visible| - 1], position, positions);
      if positions.None? || position + |visible| - 1 in positions.value then older + [Last(visible)] else older
  }

  /** The commits an epoch processes, in walk order. */
  function Picked(walk: seq<Commit>, resume: Option<string>, position: nat, positions: Option<set<nat>>, reached: nat)
    : seq<Commit>
  {
    var wanted := Wanted(Visible(walk, resume, reached), position, positions);
    if AtHead(walk, resume) then wanted else Take(wanted, NewCommits(walk, resume, position))
  }

  /** Processed commits are numbered consecutively; the readable ones are archived. */
  function EmailsOf(commits: seq<Commit>, position: nat, epochName: string): seq<EmailData> {
    if commits == [] then []
    else
      var older, c := EmailsOf(commits[..|commits| - 1], position, epochName), Last(commits);
      if c.mail.None? then older
      else older + [EmailData(EmailId.Format(position + |commits|, epochName, c.sha), c.mail.value)]
  }

  /** The unreadable ones are logged. */
  function ErrorsOf(commits: seq<Commit>): seq<(string, string)> {
    if commits == [] then []
    else
      var older, c := ErrorsOf(commits[..|commits| - 1]), Last(commits);
      if c.mail.Some? then older else older + [(c.sha, NO_MESSAGE)]
  }

  const NO_MESSAGE := "error reading content for commit"

  /** Polls of the shutdown flag an undisturbed second pass makes. */
  function PollsOf(walk: seq<Commit>, resume: Option<string>): nat {
    var before := IndexOfSha(walk, resume);
    if AtHead(walk, resume) || before == |walk| then |walk| else before + 1
  }

  function ReachedBy(walk: seq<Commit>, polls: Option<nat>): nat {
    if polls.None? then |walk| else Min(polls.value, |walk|)
  }

  /** The second pass may look at the commit of index `i`: it has not broken off before. */
  predicate StillWalking(walk: seq<Commit>, resume: Option<string>, i: nat) {
    i <= |walk| && (AtHead(walk, resume) || i <= IndexOfSha(walk, resume))
  }

  lemma ResumeCommitIsUnique(walk: seq<Commit>, resume: Option<string>, i: nat)
    requires i < |walk| && DistinctShas(walk) && resume == Some(walk[i].sha)
    ensures i == IndexOfSha(walk, resume)
  {
    var t := IndexOfSha(walk, resume);
    assert t <= i;
    assert walk[t].sha == walk[i].sha;
  }

  lemma TakeMore(walk: seq<Commit>, i: nat)
    requires i < |walk|
    ensures Take(walk, i + 1) == Take(walk, i) + [walk[i]] && |Take(walk, i)| == i
  {
  }

  lemma VisibleStep(walk: seq<Commit>, resume: Option<string>, i: nat)
    requires i < |walk| && DistinctShas(walk) && StillWalking(walk, resume, i)
    ensures resume == Some(walk[i].sha) ==> i == IndexOfSha(walk, resume)
    ensures resume == Some(walk[i].sha) ==> Visible(walk, resume, i + 1) == Visible(walk, resume, i)
    ensures resume != Some(walk[i].sha) ==> Visible(walk, resume, i + 1) == Visible(walk, resume, i) + [walk[i]]
    ensures resume != Some(walk[i].sha) || AtHead(walk, resume) ==> StillWalking(walk, resume, i + 1)
  {
    hide DistinctShas, Take;
    TakeMore(walk, i);
    if resume == Some(walk[i].sha) {
      ResumeCommitIsUnique(walk, resume, i);
    }
    VisibleFromTake(walk, resume, i);
    VisibleFromTake(walk, resume, i + 1);
  }

  /** What is visible, as long as the pass has not broken off. */
  lemma VisibleFromTake(walk: seq<Commit>, resume: Option<string>, i: nat)
    requires i <= |walk|
    ensures AtHead(walk, resume) ==> Visible(walk, resume, i) == if Take(walk, i) == [] then [] else Take(walk, i)[1..]
    ensures !AtHead(walk, resume) && i <= IndexOfSha(walk, resume) ==> Visible(walk, resume, i) == Take(walk, i)
    ensures !AtHead(walk, resume) && i == IndexOfSha(walk, resume) + 1 ==> Visible(walk, resume, i) == Take(walk, i - 1)
  {
  }

  lemma VisibleStops(walk: seq<Commit>, resume: Option<string>, i: nat, reached: nat)
    requires i <= reached <= |walk|
    requires i == reached || (!AtHead(walk, resume) && i == IndexOfSha(walk, resume))
    ensures Visible(walk, resume, reached) == Visible(walk, resume, i)
  {
  }

  lemma WantedPush(visible: seq<Commit>, c: Commit, position: nat, positions: Option<set<nat>>)
    ensures Wanted(visible + [c], position, positions) ==
      Wanted(visible, position, positions) +
      if positions.None? || position + |visible| in positions.value then [c] else []
  {
    assert (visible + [c])[..|visible|] == visible;
  }

  /** One more commit: skipped if it is the resume commit, already counted as old, or out of range. */
  lemma PickedStep(walk: seq<Commit>, resume: Option<string>, position: nat, positions: Option<set<nat>>, i: nat)
    requires i < |walk| && DistinctShas(walk) && StillWalking(walk, resume, i)
    ensures var v, p, c := Visible(walk, resume, i), Picked(walk, resume, position, positions, i), walk[i];
      Picked(walk, resume, position, positions, i + 1) ==
        if resume == Some(c.sha)
           || (positions.Some? && position + |v| !in positions.value)
           || (!AtHead(walk, resume) && |p| >= NewCommits(walk, resume, position))
        then p else p + [c]
  {
    hide Visible, Wanted, NewCommits, AtHead, StillWalking, IndexOfSha;
    VisibleStep(walk, resume, i);
    WantedPush(Visible(walk, resume, i), walk[i], position, positions);
  }

  lemma EmailsPush(commits: seq<Commit>, c: Commit, position: nat, epochName: string)
    ensures c.mail.Some? ==>
      && EmailsOf(commits + [c], position, epochName) == EmailsOf(commits, position, epochName)
           + [EmailData(EmailId.Format(position + |commits| + 1, epochName, c.sha), c.mail.value)]
      && ErrorsOf(commits + [c]) == ErrorsOf(commits)
    ensures c.mail.None? ==>
      && EmailsOf(commits + [c], position, epochName) == EmailsOf(commits, position, epochName)
      && ErrorsOf(commits + [c]) == ErrorsOf(commits) + [(c.sha, NO_MESSAGE)]
  {
    hide EmailId.Format;
    assert (commits + [c])[..|commits|] == commits;
  }

  /** Counts the commits newer than the resume commit. */
  method CountBeforeResume(walk: seq<Commit>, resume: Option<string>) returns (total: nat)
    ensures total == IndexOfSha(walk, resume)
  {
    total := 0;
    for i := 0 to |walk|
      invariant total == i && IndexOfSha(walk, resume) == i + IndexOfSha(walk[i..], resume)
    {
      if resume == Some(walk[i].sha) {
        break;
      }
      assert walk[i..][1..] == walk[i + 1..];
      total := total + 1;
    }
  }

  /** What an epoch run was given. */
  datatype Task = Task(epoch: EpochRepo, resume: Option<string>, position: nat, positions: Option<set<nat>>) {
    function VisibleAt(i: nat): seq<Commit> {
      Visible(epoch.walk, resume, i)
    }

    function PickedAt(i: nat): seq<Commit> {
      Picked(epoch.walk, resume, position, positions, i)
    }

    function EmailsAt(i: nat): seq<EmailData> {
      EmailsOf(PickedAt(i), position, epoch.name)
    }

    function ErrorsAt(i: nat): seq<(string, string)> {
      ErrorsOf(PickedAt(i))
    }
  }

  /** The counters of the second pass. */
  datatype Tally = Tally(emails: nat, counted: nat, processed: nat, nextNum: nat)

  /** The counters after the second pass has reached the first `i` commits. */
  ghost predicate Counts(t: Task, i: nat, n: Tally) {
    && n.counted == |t.VisibleAt(i)|
    && n.processed == |t.PickedAt(i)|
    && n.nextNum == t.position + n.processed + 1
    && n.emails == |t.EmailsAt(i)|
  }

  lemma CountsStart(t: Task)
    ensures Counts(t, 0, Tally(0, 0, 0, t.position + 1))
    ensures t.EmailsAt(0) == [] && t.ErrorsAt(0) == []
    ensures StillWalking(t.epoch.walk, t.resume, 0)
  {
  }

  /** The three ways one commit can pass: the resume commit itself, one that is only counted, and
      one that is processed. */
  lemma CountsStep(t: Task, i: nat, n: Tally)
    requires i < |t.epoch.walk| && DistinctShas(t.epoch.walk) && StillWalking(t.epoch.walk, t.resume, i)
    requires Counts(t, i, n)
    ensures n.nextNum == t.position + |t.PickedAt(i)| + 1
    ensures var c := t.epoch.walk[i];
      var passed := t.resume == Some(c.sha);
      var skipped := (t.positions.Some? && t.position + n.counted !in t.positions.value)
        || (!AtHead(t.epoch.walk, t.resume) && n.processed >= NewCommits(t.epoch.walk, t.resume, t.position));
      && (passed ==> Counts(t, i + 1, n) && t.PickedAt(i + 1) == t.PickedAt(i))
      && (!passed && skipped ==> Counts(t, i + 1, n.(counted := n.counted + 1)) && t.PickedAt(i + 1) == t.PickedAt(i))
      && (!passed && !skipped ==>
           && t.PickedAt(i + 1) == t.PickedAt(i) + [c]
           && Counts(t, i + 1, Tally(n.emails + (if c.mail.Some? then 1 else 0),
                                     n.counted + 1, n.processed + 1, n.nextNum + 1)))
  {
    hide Visible, Picked, EmailsOf, NewCommits, AtHead, StillWalking;
    VisibleStep(t.epoch.walk, t.resume, i);
    PickedStep(t.epoch.walk, t.resume, t.position, t.positions, i);
    EmailsPush(t.PickedAt(i), t.epoch.walk[i], t.position, t.epoch.name);
  }

  /** Extracts one commit's message and archives it, or logs that there is none. */
  method ProcessCommit(writer: AW.ArchiveWriter, epochName: string, c: Commit, emailNum: nat)
    requires writer.Valid()
    modifies writer.Repr
    ensures writer.Valid()
    ensures c.mail.Some? ==>
      && writer.archived == old(writer.archived) + [EmailData(EmailId.Format(emailNum, epochName, c.sha), c.mail.value)]
      && writer.dir.errors == old(writer.dir.errors)
    ensures c.mail.None? ==>
      && writer.archived == old(writer.archived)
      && writer.dir.errors == old(writer.dir.errors) + [(c.sha, NO_MESSAGE)]
  {
    hide AW.ArchiveWriter.Valid, EmailId.Format;
    if c.mail.Some? {
      FlattenOne(c.mail.value);
      writer.ArchiveEmail(EmailId.Format(emailNum, epochName, c.sha), [c.mail.value]);
    } else {
      writer.LogError(c.sha, NO_MESSAGE);
    }
  }

  /** One commit of the second pass: passed over if it is the resume commit at the head, the end of
      the pass if it is the resume commit elsewhere, counted only if it is old or out of range, and
      processed otherwise. */
  method VisitCommit(t: Task, i: nat, writer: AW.ArchiveWriter, totalBeforeResume: nat, newCommits: nat, n: Tally,
                     ghost archived: seq<EmailData>, ghost errors: seq<(string, string)>)
    returns (stop: bool, n': Tally)
    requires writer.Valid() && i < |t.epoch.walk| && DistinctShas(t.epoch.walk)
    requires StillWalking(t.epoch.walk, t.resume, i) && Counts(t, i, n)
    requires totalBeforeResume == IndexOfSha(t.epoch.walk, t.resume)
    requires newCommits == NewCommits(t.epoch.walk, t.resume, t.position)
    requires writer.archived == archived + t.EmailsAt(i) && writer.dir.errors == errors + t.ErrorsAt(i)
    modifies writer.Repr
    ensures writer.Valid()
    ensures stop <==> t.resume == Some(t.epoch.walk[i].sha) && totalBeforeResume != 0
    ensures stop ==> n' == n && writer.archived == old(writer.archived) && writer.dir.errors == old(writer.dir.errors)
    ensures !stop ==> StillWalking(t.epoch.walk, t.resume, i + 1) && Counts(t, i + 1, n')
    ensures !stop ==> writer.archived == archived + t.EmailsAt(i + 1) && writer.dir.errors == errors + t.ErrorsAt(i + 1)
  {
    hide AW.ArchiveWriter.Valid, EmailId.Format, EmailsOf, ErrorsOf, Picked, Visible, NewCommits, Counts,
      StillWalking, IndexOfSha, DistinctShas;
    VisibleStep(t.epoch.walk, t.resume, i);
    CountsStep(t, i, n);
    var commit := t.epoch.walk[i];
    EmailsPush(t.PickedAt(i), commit, t.position, t.epoch.name);
    if t.resume == Some(commit.sha) {
      return totalBeforeResume != 0, n;
    }
    if n.processed >= newCommits && totalBeforeResume > 0 {
      return false, n.(counted := n.counted + 1);
    }
    if t.positions.Some? && t.position + n.counted !in t.positions.value {
      return false, n.(counted := n.counted + 1);
    }
    ProcessCommit(writer, t.epoch.name, commit, n.nextNum);
    var archivedNow := if commit.mail.Some? then 1 else 0;
    return false, Tally(n.emails + archivedNow, n.counted + 1, n.processed + 1, n.nextNum + 1);
  }

  /** How the second pass can end after `i` commits: at the end of the walk, at a raised flag, or
      at a resume commit behind the head. */
  ghost predicate EndsAt(t: Task, i: nat, polls: Option<nat>, left: Option<nat>) {
    var walk := t.epoch.walk;
    && i <= |walk| && (polls.Some? ==> i <= polls.value)
    && (|| (i == |walk| && left == AfterPolls(polls, i))
        || (i < |walk| && polls == Some(i) && left == Some(0))
        || (i < |walk| && t.resume == Some(walk[i].sha) && IndexOfSha(walk, t.resume) != 0
            && polls != Some(i) && left == AfterPolls(polls, i + 1)))
  }

  lemma EpochEnds(t: Task, i: nat, polls: Option<nat>, left: Option<nat>, n: Tally)
    requires StillWalking(t.epoch.walk, t.resume, i) && EndsAt(t, i, polls, left) && Counts(t, i, n)
    ensures var reached := ReachedBy(t.epoch.walk, polls);
      && n.counted == |t.VisibleAt(reached)| && n.emails == |t.EmailsAt(reached)|
      && t.EmailsAt(reached) == t.EmailsAt(i) && t.ErrorsAt(reached) == t.ErrorsAt(i)
      && left == AfterPolls(polls, PollsOf(t.epoch.walk, t.resume))
  {
    hide Wanted, NewCommits, EmailsOf, ErrorsOf;
    VisibleStops(t.epoch.walk, t.resume, i, ReachedBy(t.epoch.walk, polls));
  }

  /** Two passes over the walk: the first finds out how many commits are new, the second processes
      them. Returns how many emails it archived and how many commits it counted. */
  method ProcessEpoch(epoch: EpochRepo, writer: AW.ArchiveWriter, positions: Option<set<nat>>,
                      skipUntilSha: Option<string>, position: nat, flag: ShutdownFlag)
    returns (emailsProcessed: nat, commitCount: nat)
    requires writer.Valid() && flag !in writer.Repr && DistinctShas(epoch.walk)
    modifies writer.Repr, flag
    ensures writer.Valid()
    ensures var t := Task(epoch, ResumeSha(epoch, skipUntilSha), position, positions);
      var reached := ReachedBy(epoch.walk, old(flag.pollsLeft));
      && writer.archived == old(writer.archived) + t.EmailsAt(reached)
      && writer.dir.errors == old(writer.dir.errors) + t.ErrorsAt(reached)
      && emailsProcessed == |t.EmailsAt(reached)|
      && commitCount == |t.VisibleAt(reached)|
      && flag.pollsLeft == AfterPolls(old(flag.pollsLeft), PollsOf(epoch.walk, t.resume))
  {
    hide AW.ArchiveWriter.Valid, Counts, StillWalking, IndexOfSha, NewCommits, DistinctShas, ResumeSha;
    hide Task.EmailsAt, Task.ErrorsAt, Task.VisibleAt;
    var t := Task(epoch, ResumeSha(epoch, skipUntilSha), position, positions);
    var totalBeforeResume := CountBeforeResume(epoch.walk, t.resume);
    var newCommits := NewCommits(epoch.walk, t.resume, position);
    var n := Tally(0, 0, 0, position + 1);
    CountsStart(t);
    ghost var polls, archived, errors := flag.pollsLeft, writer.archived, writer.dir.errors;
    var i := 0;
    while i < |epoch.walk|
      invariant i <= |epoch.walk| && StillWalking(epoch.walk, t.resume, i) && writer.Valid()
      invariant polls.Some? ==> i <= polls.value
      invariant flag.pollsLeft == AfterPolls(polls, i)
      invariant Counts(t, i, n)
      invariant writer.archived == archived + t.EmailsAt(i) && writer.dir.errors == errors + t.ErrorsAt(i)
    {
      var raised := flag.IsRequested();
      if raised {
        break;
      }
      var stop;
      stop, n := VisitCommit(t, i, writer, totalBeforeResume, newCommits, n, archived, errors);
      if stop {
        break;
      }
      i := i + 1;
    }
    EpochEnds(t, i, polls, flag.pollsLeft, n);
    emailsProcessed, commitCount := n.emails, n.counted;
  }

  // ----- a whole inbox

  /** An inbox with epochs, or, when there are none, the one repository it consists of. */
  datatype Inbox = Inbox(epochs: seq<EpochRepo>, bare: EpochRepo)

  function EpochsToUse(inbox: Inbox, name: string): seq<EpochRepo> {
    if inbox.epochs == [] then [inbox.bare.(name := name)] else inbox.epochs
  }

  const V1_LABEL := "all"

  /** The epochs not older than the resume point; comparing a name that is not a number panics. */
  function EpochsFrom(epochs: seq<EpochRepo>, skip: string): Option<seq<EpochRepo>> {
    if epochs == [] then Some([])
    else if skip == V1_LABEL then
      var rest := EpochsFrom(epochs[1..], skip);
      if rest.None? || epochs[0].name != V1_LABEL then rest else Some([epochs[0]] + rest.value)
    else
      var a, b, rest := Decimal.ParseUsize(epochs[0].name), Decimal.ParseUsize(skip), EpochsFrom(epochs[1..], skip);
      if a.None? || b.None? || rest.None? then None
      else if a.value >= b.value then Some([epochs[0]] + rest.value)
      else rest
  }

  /** Where counting the commits of older epochs stops. */
  predicate ReachesEpoch(name: string, skip: string) {
    var a, b := Decimal.ParseUsize(name), Decimal.ParseUsize(skip);
    name == skip || (skip != V1_LABEL && a.Some? && b.Some? && a.value >= b.value)
  }

  function CommitsBefore(epochs: seq<EpochRepo>, skip: string): nat {
    if epochs == [] || ReachesEpoch(epochs[0].name, skip) then 0
    else |epochs[0].walk| + CommitsBefore(epochs[1..], skip)
  }

  /** What a run sets out to do: the epochs to visit, the commit to resume at in the first of them,
      the global position, and the commits that lie before the first of them. */
  datatype Plan = Plan(epochs: seq<EpochRepo>, sha: Option<string>, position: nat, before: nat)

  function PlanOf(inbox: Inbox, resume: Option<EmailId.ParsedEmailId>): Option<Plan> {
    var epochs := EpochsToUse(inbox, V1_LABEL);
    if resume.None? then Some(Plan(epochs, None, 0, 0))
    else
      var remaining := EpochsFrom(epochs, resume.value.epochName);
      if remaining.None? then None
      else Some(Plan(remaining.value, Some(resume.value.commitSha), resume.value.emailNum,
                     CommitsBefore(inbox.epochs, resume.value.epochName)))
  }

  /** The emails a plan archives: each epoch not yet covered by the global position is processed,
      only the first visited one with a resume commit, until the shutdown flag is up. */
  function PlanEmails(p: Plan, positions: Option<set<nat>>, polls: Option<nat>): seq<EmailData>
    decreases |p.epochs|
  {
    if p.epochs == [] || polls == Some(0) then []
    else
      var e, left := p.epochs[0], AfterPolls(polls, 1);
      var total := p.before + |e.walk|;
      if p.position >= total then
        PlanEmails(Plan(p.epochs[1..], None, p.position, total), positions, left)
      else
        var t := Task(e, ResumeSha(e, p.sha), p.position, positions);
        var reached := ReachedBy(e.walk, left);
        t.EmailsAt(reached)
        + PlanEmails(Plan(p.epochs[1..], None, p.position + |t.VisibleAt(reached)|, total), positions,
                     AfterPolls(left, PollsOf(e.walk, t.resume)))
  }

  /** The plan that is left after its first epoch was skipped, or visited with `counted` commits. */
  function NextPlan(p: Plan, counted: nat): Plan
    requires p.epochs != []
  {
    Plan(p.epochs[1..], None, p.position + counted, p.before + |p.epochs[0].walk|)
  }

  function FirstTask(p: Plan, positions: Option<set<nat>>): Task
    requires p.epochs != []
  {
    Task(p.epochs[0], ResumeSha(p.epochs[0], p.sha), p.position, positions)
  }

  /** What the same run logs: the commits without a message it came to. */
  function PlanErrors(p: Plan, positions: Option<set<nat>>, polls: Option<nat>): seq<(string, string)>
    decreases |p.epochs|
  {
    if p.epochs == [] || polls == Some(0) then []
    else
      var left, t := AfterPolls(polls, 1), FirstTask(p, positions);
      if p.position >= p.before + |t.epoch.walk| then PlanErrors(NextPlan(p, 0), positions, left)
      else
        var reached := ReachedBy(t.epoch.walk, left);
        t.ErrorsAt(reached)
        + PlanErrors(NextPlan(p, |t.VisibleAt(reached)|), positions, AfterPolls(left, PollsOf(t.epoch.walk, t.resume)))
  }

  lemma PlanStep(p: Plan, positions: Option<set<nat>>, polls: Option<nat>, done: seq<EmailData>)
    requires p.epochs != []
    ensures var left, t := AfterPolls(polls, 1), FirstTask(p, positions);
      var reached := ReachedBy(t.epoch.walk, left);
      && (polls == Some(0) ==> done + PlanEmails(p, positions, polls) == done)
      && (polls != Some(0) && p.position >= p.before + |t.epoch.walk| ==>
           PlanEmails(p, positions, polls) == PlanEmails(NextPlan(p, 0), positions, left))
      && (polls != Some(0) && p.position < p.before + |t.epoch.walk| ==>
           done + PlanEmails(p, positions, polls) == (done + t.EmailsAt(reached))
             + PlanEmails(NextPlan(p, |t.VisibleAt(reached)|), positions,
                          AfterPolls(left, PollsOf(t.epoch.walk, t.resume))))
  {
    hide Task.EmailsAt, Task.VisibleAt, ResumeSha, IndexOfSha, PollsOf, AfterPolls, ReachedBy;
  }

  lemma PlanErrorsStep(p: Plan, positions: Option<set<nat>>, polls: Option<nat>, done: seq<(string, string)>)
    requires p.epochs != []
    ensures var left, t := AfterPolls(polls, 1), FirstTask(p, positions);
      var reached := ReachedBy(t.epoch.walk, left);
      && (polls == Some(0) ==> done + PlanErrors(p, positions, polls) == done)
      && (polls != Some(0) && p.position >= p.before + |t.epoch.walk| ==>
           PlanErrors(p, positions, polls) == PlanErrors(NextPlan(p, 0), positions, left))
      && (polls != Some(0) && p.position < p.before + |t.epoch.walk| ==>
           done + PlanErrors(p, positions, polls) == (done + t.ErrorsAt(reached))
             + PlanErrors(NextPlan(p, |t.VisibleAt(reached)|), positions,
                          AfterPolls(left, PollsOf(t.epoch.walk, t.resume))))
  {
    hide Task.ErrorsAt, Task.VisibleAt, ResumeSha, IndexOfSha, PollsOf, AfterPolls, ReachedBy;
  }

  lemma PlanDone(p: Plan, positions: Option<set<nat>>, polls: Option<nat>)
    requires p.epochs == []
    ensures PlanEmails(p, positions, polls) == [] && PlanErrors(p, positions, polls) == []
  {
  }

  /** A range selects 1-based numbers; positions are 0-based. */
  function PositionsOf(numbers: seq<nat>): set<nat> {
    set n | n in numbers :: SaturatingSub(n, 1)
  }

  datatype InboxResult = Processed(emails: nat) | BadRange | Panicked

  function ResumeInfo(yaml: ProgressFile.Yaml, progress: Option<string>): Option<EmailId.ParsedEmailId> {
    var id := ProgressFile.LastProcessedId(yaml, progress);
    if id.None? then None else EmailId.Parse(id.value)
  }

  /** Visits the planned epochs in order. */
  method RunPlan(plan: Plan, writer: AW.ArchiveWriter, positions: Option<set<nat>>, flag: ShutdownFlag)
    returns (emailsProcessed: nat)
    requires writer.Valid() && writer.archived == [] && flag !in writer.Repr && ValidEpochs(plan.epochs)
    modifies writer.Repr, flag
    ensures writer.Valid()
    ensures writer.archived == PlanEmails(plan, positions, old(flag.pollsLeft))
    ensures writer.dir.errors == old(writer.dir.errors) + PlanErrors(plan, positions, old(flag.pollsLeft))
    ensures emailsProcessed == |writer.archived|
  {
    hide AW.ArchiveWriter.Valid, Task.EmailsAt, Task.ErrorsAt, Task.VisibleAt, ResumeSha, IndexOfSha, PollsOf,
      PlanEmails, PlanErrors, AfterPolls, ReachedBy, DistinctShas;
    emailsProcessed := 0;
    var p := plan;
    while p.epochs != []
      invariant writer.Valid() && ValidEpochs(p.epochs)
      invariant emailsProcessed == |writer.archived|
      invariant writer.archived + PlanEmails(p, positions, flag.pollsLeft)
        == PlanEmails(plan, positions, old(flag.pollsLeft))
      invariant writer.dir.errors + PlanErrors(p, positions, flag.pollsLeft)
             == old(writer.dir.errors) + PlanErrors(plan, positions, old(flag.pollsLeft))
      decreases |p.epochs|
    {
      PlanStep(p, positions, flag.pollsLeft, writer.archived);
      PlanErrorsStep(p, positions, flag.pollsLeft, writer.dir.errors);
      var epoch := p.epochs[0];
      var raised := flag.IsRequested();
      if raised {
        return;
      }
      if p.position >= p.before + |epoch.walk| {
        p := NextPlan(p, 0);
        continue;
      }
      var emails, commits := ProcessEpoch(epoch, writer, positions, p.sha, p.position, flag);
      emailsProcessed := emailsProcessed + emails;
      p := NextPlan(p, commits);
    }
    PlanDone(p, positions, flag.pollsLeft);
  }

  /** Archives one inbox from where the stored progress says. */
  method ProcessInbox(dir: Directory, mode: AW.WriteMode, yaml: ProgressFile.Yaml, record: (string, nat) -> string,
                      inbox: Inbox, emailRange: Option<string>, flag: ShutdownFlag)
    returns (result: InboxResult)
    requires ValidEpochs(inbox.epochs) && DistinctShas(inbox.bare.walk)
    modifies dir, flag
    ensures var plan := PlanOf(inbox, ResumeInfo(yaml, old(dir.progress)));
      var numbers := if emailRange.None? then Ok([]) else RangeInputs.ParseSequence(emailRange.value);
      var positions := if emailRange.None? then None else if numbers.Ok? then Some(PositionsOf(numbers.value))
        else None;
      var emails := if numbers.Err? || plan.None? then [] else PlanEmails(plan.value, positions, old(flag.pollsLeft));
      var errors := if numbers.Err? || plan.None? then [] else PlanErrors(plan.value, positions, old(flag.pollsLeft));
      && dir.errors == old(dir.errors) + errors
      && result == (if numbers.Err? then BadRange else if plan.None? then Panicked else Processed(|emails|))
      && AW.Stored(mode, yaml, record, emails, old(dir.Snapshot()), dir.Snapshot())
  {
    hide AW.ArchiveWriter.Valid, AW.Stored, PlanEmails, PlanErrors, EpochsFrom, CommitsBefore, EmailId.Parse,
      RangeInputs.ParseSequence;
    var writer := new AW.ArchiveWriter(dir, mode, yaml, record);
    var lastEmail := writer.LastProcessedId();
    var resume := if lastEmail.None? then None else EmailId.Parse(lastEmail.value);
    var positions: Option<set<nat>> := None;
    if emailRange.Some? {
      var numbers := RangeInputs.ParseSequence(emailRange.value);
      if numbers.Err? {
        writer.Drop();
        return BadRange;
      }
      positions := Some(PositionsOf(numbers.value));
    }
    var plan := PlanOf(inbox, resume);
    if plan.None? {
      writer.Drop();
      return Panicked;
    }
    PlanIsValid(inbox, resume);
    var count := RunPlan(plan.value, writer, positions, flag);
    writer.Drop();
    return Processed(count);
  }

  lemma {:induction false} EpochsFromIsValid(epochs: seq<EpochRepo>, skip: string)
    requires ValidEpochs(epochs)
    ensures EpochsFrom(epochs, skip).Some? ==> ValidEpochs(EpochsFrom(epochs, skip).value)
  {
    hide DistinctShas, Decimal.ParseUsize;
    if epochs != [] {
      EpochsFromIsValid(epochs[1..], skip);
    }
  }

  lemma PlanIsValid(inbox: Inbox, resume: Option<EmailId.ParsedEmailId>)
    requires ValidEpochs(inbox.epochs) && DistinctShas(inbox.bare.walk)
    ensures PlanOf(inbox, resume).Some? ==> ValidEpochs(PlanOf(inbox, resume).value.epochs)
  {
    hide EpochsFrom, CommitsBefore;
    assert ValidEpochs(EpochsToUse(inbox, V1_LABEL));
    if resume.Some? {
      EpochsFromIsValid(EpochsToUse(inbox, V1_LABEL), resume.value.epochName);
    }
  }

  // ----- random access

  /** The commits of all epochs in walk order, each with the name of its epoch. */
  function AllCommits(epochs: seq<EpochRepo>): seq<(string, Commit)> {
    if epochs == [] then []
    else
      seq(|epochs[0].walk|, i requires 0 <= i < |epochs[0].walk| => (epochs[0].name, epochs[0].walk[i]))
      + AllCommits(epochs[1..])
  }

  const FALLBACK_LABEL := "1"

  /** `str::lines`: the line ends, with a carriage return before them, are dropped. */
  function TextLines(s: string): seq<string>
    decreases |s|
  {
    if s == "" then []
    else
      match Text.Find(s, "\n")
      case None => [s]
      case Some(i) => [if i > 0 && s[i - 1] == '\r' then s[..i - 1] else s[..i]] + TextLines(s[i + 1..])
  }

  datatype ReadResult = Archived | IndexZero | OutOfRange | NoMessage

  /** What asking for one email yields: element `index - 1` of all commits, if it is readable. */
  function Selected(epochs: seq<EpochRepo>, index: nat): (ReadResult, seq<EmailData>) {
    var all := AllCommits(epochs);
    if index == 0 then (IndexZero, [])
    else if index > |all| then (OutOfRange, [])
    else
      var (name, c) := all[index - 1];
      if c.mail.None? then (NoMessage, [])
      else (Archived, [EmailData(EmailId.Format(index, name, c.sha), Flatten(TextLines(c.mail.value)))])
  }

  lemma AllCommitsSplit(epochs: seq<EpochRepo>)
    requires epochs != []
    ensures |AllCommits(epochs)| == |epochs[0].walk| + |AllCommits(epochs[1..])|
    ensures forall j :: 0 <= j < |epochs[0].walk| ==> AllCommits(epochs)[j] == (epochs[0].name, epochs[0].walk[j])
    ensures AllCommits(epochs)[|epochs[0].walk|..] == AllCommits(epochs[1..])
  {
  }

  /** Finds the epoch that holds the requested email by subtracting the sizes of the earlier ones. */
  method Locate(epochs: seq<EpochRepo>, index: nat) returns (found: Option<(string, Commit)>)
    requires index > 0
    ensures found == if index <= |AllCommits(epochs)| then Some(AllCommits(epochs)[index - 1]) else None
  {
    hide AllCommits;
    ghost var all := AllCommits(epochs);
    var remaining, rest := index, epochs;
    while rest != []
      invariant 0 < remaining <= index
      invariant index - remaining <= |all| && AllCommits(rest) == all[index - remaining..]
      decreases |rest|
    {
      AllCommitsSplit(rest);
      var epoch := rest[0];
      if remaining <= |epoch.walk| {
        return Some((epoch.name, epoch.walk[remaining - 1]));
      }
      assert all[index - remaining..][|epoch.walk|..] == all[index - remaining + |epoch.walk|..];
      remaining := remaining - |epoch.walk|;
      rest := rest[1..];
    }
    NoCommits();
    return None;
  }

  lemma NoCommits()
    ensures AllCommits([]) == []
  {
  }

  /** Archives the requested email under the requested number. */
  method ReadEmailByIndex(dir: Directory, mode: AW.WriteMode, yaml: ProgressFile.Yaml, record: (string, nat) -> string,
                          inbox: Inbox, index: nat)
    returns (result: ReadResult)
    modifies dir
    ensures var (outcome, emails) := Selected(EpochsToUse(inbox, FALLBACK_LABEL), index);
      result == outcome && AW.Stored(mode, yaml, record, emails, old(dir.Snapshot()), dir.Snapshot())
    ensures dir.errors == old(dir.errors)
  {
    hide AW.ArchiveWriter.Valid, AW.Stored, EmailId.Format, TextLines, AllCommits;
    var writer := new AW.ArchiveWriter(dir, mode, yaml, record);
    if index == 0 {
      writer.Drop();
      return IndexZero;
    }
    var found := Locate(EpochsToUse(inbox, FALLBACK_LABEL), index);
    if found.None? {
      writer.Drop();
      return OutOfRange;
    }
    var (name, c) := found.value;
    if c.mail.None? {
      writer.Drop();
      return NoMessage;
    }
    writer.ArchiveEmail(EmailId.Format(index, name, c.sha), TextLines(c.mail.value));
    assert writer.archived == [EmailData(EmailId.Format(index, name, c.sha), Flatten(TextLines(c.mail.value)))];
    writer.Drop();
    return Archived;
  }
}
