/** One run after another over the last epoch of an inbox: what is stored, and what a run that finds
    it stored takes. */
module InboxRuns {
  import opened Prelude
  import opened EmailStore
  import opened PublicInbox
  import opened Epochs
  import opened InboxTheorems
  import opened InboxResume
  import opened Shutdown
  import Decimal
  import EmailId

  // ----- a run from a stored identifier

  /** What a run does that finds this identifier stored. */
  function RunFrom(inbox: Inbox, id: string): seq<EmailData> {
    var plan := PlanOf(inbox, EmailId.Parse(id));
    if plan.None? then [] else PlanEmails(plan.value, None, None)
  }

  /** A run without emails stores nothing. */
  function StoredBy(emails: seq<EmailData>, before: string): string {
    if emails == [] then before else Last(emails).emailId
  }

  lemma NameParses(inbox: Inbox, earlier: seq<EpochRepo>, e: EpochRepo)
    requires EndsWithEpoch(inbox, earlier, e)
    ensures '-' !in e.name
  {
    hide Decimal.ParseUsize;
    var all := earlier + [e];
    assert all[|earlier|] == e;
    NameHasNoDash(e.name);
  }

  lemma RunFromStored(inbox: Inbox, earlier: seq<EpochRepo>, e: EpochRepo, position: nat, sha: string)
    requires EndsWithEpoch(inbox, earlier, e) && position <= Decimal.USIZE_MAX
    ensures PlanOf(inbox, EmailId.Parse(EmailId.Format(position, e.name, sha))).Some?
    ensures RunFrom(inbox, EmailId.Format(position, e.name, sha))
         == EmailsOf(Resumed(e, Total(earlier), position, sha), position, e.name)
  {
    hide EmailId.Format, EmailId.Parse, PlanOf, PlanEmails, Resumed, EmailsOf, OrderedNames;
    NameParses(inbox, earlier, e);
    EmailId.ParseInvertsFormat(position, e.name, sha);
    PlanOfLast(inbox, earlier, e, position, sha);
    LastEpochPlan(e, Total(earlier), position, sha);
  }

  // ----- the stored state of an epoch

  /** The stored number, and where in the walk the stored commit is. */
  datatype Progress = Progress(position: nat, index: nat)

  function StoredAt(e: EpochRepo, s: Progress): string
    requires s.index < |e.walk|
  {
    EmailId.Format(s.position, e.name, e.walk[s.index].sha)
  }

  /** A stretch of a walk, the end not included. */
  datatype Span = Span(lo: nat, hi: nat)

  /** The stretch that the next run takes, behind `g` commits of earlier epochs. */
  function Window(g: nat, n: nat, s: Progress): (w: Span)
    requires s.index < n
    ensures w.lo <= w.hi <= n
  {
    if s.position >= g + n then Span(0, 0)
    else if s.index == 0 then Span(1, n)
    else Span(0, s.index - if s.index > s.position >= 2 then s.position - 1 else 0)
  }

  /** The index of the last commit that has a message. */
  function LastMail(commits: seq<Commit>): (r: Option<nat>)
    ensures r.Some? ==> r.value < |commits| && commits[r.value].mail.Some?
    ensures forall i :: 0 <= i < |commits| && (r.Some? ==> i > r.value) ==> commits[i].mail.None?
  {
    if commits == [] then None
    else if Last(commits).mail.Some? then Some(|commits| - 1)
    else LastMail(commits[..|commits| - 1])
  }

  lemma {:induction false} LastEmail(commits: seq<Commit>, position: nat, name: string)
    ensures var r, emails := LastMail(commits), EmailsOf(commits, position, name);
      && (emails == [] <==> r.None?)
      && (r.Some? ==> Last(emails).emailId == EmailId.Format(position + r.value + 1, name, commits[r.value].sha))
  {
    hide EmailId.Format;
    if commits != [] {
      LastEmail(commits[..|commits| - 1], position, name);
    }
  }

  /** What is stored after the run. */
  function NextProgress(g: nat, walk: seq<Commit>, s: Progress): (t: Progress)
    requires s.index < |walk|
    ensures t.index < |walk|
  {
    var Span(lo, hi) := Window(g, |walk|, s);
    var r := LastMail(walk[lo..hi]);
    if r.None? then s else Progress(s.position + r.value + 1, lo + r.value)
  }

  /** One run, exactly: the emails of the window, numbered on, and the state it leaves. */
  lemma OneRun(inbox: Inbox, earlier: seq<EpochRepo>, e: EpochRepo, s: Progress)
    requires EndsWithEpoch(inbox, earlier, e) && DistinctShas(e.walk)
    requires s.index < |e.walk| && s.position <= Decimal.USIZE_MAX
    ensures PlanOf(inbox, EmailId.Parse(StoredAt(e, s))).Some?
    ensures var Span(lo, hi) := Window(Total(earlier), |e.walk|, s);
      RunFrom(inbox, StoredAt(e, s)) == EmailsOf(e.walk[lo..hi], s.position, e.name)
    ensures StoredBy(RunFrom(inbox, StoredAt(e, s)), StoredAt(e, s))
         == StoredAt(e, NextProgress(Total(earlier), e.walk, s))
  {
    hide EmailId.Format, EmailId.Parse, PlanOf, PlanEmails, Resumed, EmailsOf, OrderedNames, DistinctShas, RunFrom,
      LastMail, EndsWithEpoch;
    var g := Total(earlier);
    var Span(lo, hi) := Window(g, |e.walk|, s);
    RunFromStored(inbox, earlier, e, s.position, e.walk[s.index].sha);
    ResumedClosedForm(e, g, s.position, s.index);
    assert Resumed(e, g, s.position, e.walk[s.index].sha) == e.walk[lo..hi];
    LastEmail(e.walk[lo..hi], s.position, e.name);
  }

  // ----- a first run, stopped anywhere in the last epoch

  /** Polls of the flag up to the end of these epochs. */
  function PollsThrough(epochs: seq<EpochRepo>): nat {
    if epochs == [] then 0 else 1 + |epochs[0].walk| + PollsThrough(epochs[1..])
  }

  /** The flag goes up when the last epoch has been walked this far, or never. */
  function PollsFor(earlier: seq<EpochRepo>, stop: Option<nat>): Option<nat> {
    if stop.None? then None else Some(PollsThrough(earlier) + 1 + stop.value)
  }

  /** How much of the last epoch a first run takes: up to the stop, and never the commits it drops. */
  function Kept(g: nat, n: nat, stop: Option<nat>): (m: nat)
    ensures m <= n
  {
    Min(n - Dropped(n, g), if stop.None? then n else stop.value)
  }

  lemma {:induction false} FirstRunOver(earlier: seq<EpochRepo>, e: EpochRepo, g: nat, stop: Option<nat>)
    ensures PlanEmails(Plan(earlier + [e], None, g, g), None, PollsFor(earlier, stop))
         == FreshEmails(earlier, g)
            + EmailsOf(e.walk[..Kept(g + Total(earlier), |e.walk|, stop)], g + Total(earlier), e.name)
    decreases |earlier|
  {
    hide PlanEmails, EmailsOf, Dropped, Kept, PollsFor;
    var all := earlier + [e];
    if earlier == [] {
      assert all == [e];
      OverLast(e, g, stop);
    } else {
      var rest := earlier[1..];
      assert all[1..] == rest + [e] && all[0] == earlier[0];
      FirstRunOver(rest, e, g + |earlier[0].walk|, stop);
      OverFirst(earlier, [e], g, stop);
    }
  }

  /** The first of several epochs is walked to its end when the stop lies behind it. */
  lemma OverFirst(earlier: seq<EpochRepo>, others: seq<EpochRepo>, g: nat, stop: Option<nat>)
    requires earlier != []
    ensures var w, rest := earlier[0].walk, earlier[1..];
      PlanEmails(Plan(earlier + others, None, g, g), None, PollsFor(earlier, stop))
      == EmailsOf(w[..|w| - Dropped(|w|, g)], g, earlier[0].name)
         + PlanEmails(Plan(rest + others, None, g + |w|, g + |w|), None, PollsFor(rest, stop))
  {
    hide PlanEmails, EmailsOf, ResumeSha, IndexOfSha, Task.VisibleAt, Task.PickedAt, Dropped, PollsOf;
    var w, rest, polls := earlier[0].walk, earlier[1..], PollsFor(earlier, stop);
    var p := Plan(earlier + others, None, g, g);
    assert (earlier + others)[1..] == rest + others && (earlier + others)[0] == earlier[0];
    PlanStep(p, None, polls, []);
    FreshEpoch(earlier[0], g);
    FreshPolls(earlier[0]);
    assert AfterPolls(AfterPolls(polls, 1), |w|) == PollsFor(rest, stop);
    NoEmails(g, earlier[0].name);
    assert [] + PlanEmails(p, None, polls) == PlanEmails(p, None, polls);
  }

  lemma FreshPolls(e: EpochRepo)
    ensures PollsOf(e.walk, ResumeSha(e, None)) == |e.walk|
  {
    NoResume(e.walk);
  }

  /** The last epoch of a first run. */
  lemma OverLast(e: EpochRepo, g: nat, stop: Option<nat>)
    ensures PlanEmails(Plan([e], None, g, g), None, PollsFor([], stop))
         == EmailsOf(e.walk[..Kept(g, |e.walk|, stop)], g, e.name)
  {
    hide PlanEmails, EmailsOf, ResumeSha, IndexOfSha, Task.VisibleAt, Task.PickedAt, PollsOf, Dropped;
    var p, polls := Plan([e], None, g, g), PollsFor([], stop);
    PlanStep(p, None, polls, []);
    assert [e][1..] == [];
    assert [] + PlanEmails(p, None, polls) == PlanEmails(p, None, polls);
    PlanDone(NextPlan(p, 0), None, AfterPolls(polls, 1));
    var left := AfterPolls(polls, 1);
    var reached := ReachedBy(e.walk, left);
    var t := FirstTask(p, None);
    PlanDone(NextPlan(p, |t.VisibleAt(reached)|), None, AfterPolls(left, PollsOf(e.walk, t.resume)));
    FreshTask(e, g, reached);
    NoEmails(g, e.name);
  }

  lemma FreshTask(e: EpochRepo, g: nat, reached: nat)
    requires reached <= |e.walk|
    ensures Task(e, ResumeSha(e, None), g, None).PickedAt(reached)
         == e.walk[..Min(|e.walk| - Dropped(|e.walk|, g), reached)]
  {
    hide Wanted, Visible;
    var walk, sha := e.walk, ResumeSha(e, None);
    NoResume(walk);
    VisibleFromTake(walk, sha, reached);
    assert Take(walk, reached) == walk[..reached];
    WantedAll(walk[..reached], g);
    assert NewCommits(walk, sha, g) == |walk| - Dropped(|walk|, g);
  }

  /** A first run. */
  function FirstRun(inbox: Inbox, polls: Option<nat>): seq<EmailData> {
    var plan := PlanOf(inbox, None);
    if plan.None? then [] else PlanEmails(plan.value, None, polls)
  }

  /** What a first run archives, stopped anywhere in the last epoch or not at all, and the state it
      leaves when it archives anything there. */
  lemma FirstStored(inbox: Inbox, earlier: seq<EpochRepo>, e: EpochRepo, stop: Option<nat>)
    requires EndsWithEpoch(inbox, earlier, e)
    ensures PlanOf(inbox, None).Some?
    ensures var g := Total(earlier);
      var kept := e.walk[..Kept(g, |e.walk|, stop)];
      var first, r := FirstRun(inbox, PollsFor(earlier, stop)), LastMail(kept);
      && first == FreshEmails(earlier, 0) + EmailsOf(kept, g, e.name)
      && (r.Some? ==> StoredBy(first, "") == StoredAt(e, Progress(g + r.value + 1, r.value)))
  {
    hide PlanOf, PlanEmails, FreshEmails, EmailsOf, LastMail, Kept, PollsFor, EmailId.Format, EndsWithEpoch;
    var g := Total(earlier);
    PlanOfLast(inbox, earlier, e, 0, "");
    FirstRunOver(earlier, e, 0, stop);
    LastEmail(e.walk[..Kept(g, |e.walk|, stop)], g, e.name);
  }

  // ----- a push between two runs

  /** The epoch `after` is `before` with new commits on top. */
  ghost predicate Grown(before: EpochRepo, after: EpochRepo) {
    && after.name == before.name && |before.walk| <= |after.walk|
    && after.walk[|after.walk| - |before.walk|..] == before.walk
  }

  /** The run after a first one, stopped or not, with `k` commits pushed onto the last epoch in
      between, or none: exactly the window for the commit that is stored, now `k` further back. */
  lemma RunAfterFirst(before: Inbox, after: Inbox, earlier: seq<EpochRepo>, e: EpochRepo, pushed: EpochRepo,
                     stop: Option<nat>)
    requires EndsWithEpoch(before, earlier, e) && EndsWithEpoch(after, earlier, pushed)
    requires Grown(e, pushed) && DistinctShas(pushed.walk)
    requires Total(earlier) + |e.walk| <= Decimal.USIZE_MAX
    requires LastMail(e.walk[..Kept(Total(earlier), |e.walk|, stop)]).Some?
    ensures var g, k := Total(earlier), |pushed.walk| - |e.walk|;
      var r := LastMail(e.walk[..Kept(g, |e.walk|, stop)]).value;
      var stored, s := StoredBy(FirstRun(before, PollsFor(earlier, stop)), ""), Progress(g + r + 1, k + r);
      var Span(lo, hi) := Window(g, |pushed.walk|, s);
      && stored == StoredAt(pushed, s)
      && RunFrom(after, stored) == EmailsOf(pushed.walk[lo..hi], g + r + 1, e.name)
  {
    hide FirstRun, RunFrom, LastMail, Kept, PollsFor, EndsWithEpoch, DistinctShas, EmailsOf, Window, EmailId.Format,
      NextProgress, StoredBy;
    var g, k := Total(earlier), |pushed.walk| - |e.walk|;
    var r := LastMail(e.walk[..Kept(g, |e.walk|, stop)]).value;
    FirstStored(before, earlier, e, stop);
    assert pushed.walk[k..][r] == e.walk[r];
    OneRun(after, earlier, pushed, Progress(g + r + 1, k + r));
  }

  // ----- commits that all have messages

  predicate AllHaveMail(commits: seq<Commit>) {
    forall j :: 0 <= j < |commits| ==> commits[j].mail.Some?
  }

  /** They are all archived, the last of them under the last number. */
  lemma {:induction false} ReadableCount(commits: seq<Commit>, position: nat, name: string)
    requires AllHaveMail(commits)
    ensures |EmailsOf(commits, position, name)| == |commits|
    ensures forall j :: 0 <= j < |commits| ==>
      EmailsOf(commits, position, name)[j].emailId == EmailId.Format(position + j + 1, name, commits[j].sha)
  {
    hide EmailId.Format;
    if commits != [] {
      ReadableCount(commits[..|commits| - 1], position, name);
    }
  }

  lemma ReadableLast(commits: seq<Commit>)
    requires AllHaveMail(commits)
    ensures LastMail(commits) == if commits == [] then None else Some(|commits| - 1)
  {
  }

  lemma PrefixIsReadable(commits: seq<Commit>, k: nat)
    requires AllHaveMail(commits) && k <= |commits|
    ensures AllHaveMail(commits[..k])
  {
  }

  // ----- which commits emails name

  predicate NamesCommit(email: EmailData, name: string, sha: string) {
    var parsed := EmailId.Parse(email.emailId);
    parsed.Some? && parsed.value.epochName == name && parsed.value.commitSha == sha
  }

  /** This commit of this epoch is archived. */
  ghost predicate Archives(emails: seq<EmailData>, name: string, sha: string) {
    exists i :: 0 <= i < |emails| && NamesCommit(emails[i], name, sha)
  }

  lemma ArchivesConcat(a: seq<EmailData>, b: seq<EmailData>, name: string, sha: string)
    ensures Archives(a + b, name, sha) <==> Archives(a, name, sha) || Archives(b, name, sha)
  {
    hide NamesCommit;
    assert forall i :: 0 <= i < |a| ==> (a + b)[i] == a[i];
    assert forall i :: 0 <= i < |b| ==> (a + b)[|a| + i] == b[i];
  }

  /** The messages among processed commits are archived, and nothing else is. */
  lemma {:induction false} ArchivesExactly(commits: seq<Commit>, position: nat, name: string, sha: string)
    requires '-' !in name && position + |commits| <= Decimal.USIZE_MAX
    ensures Archives(EmailsOf(commits, position, name), name, sha)
            <==> exists j :: 0 <= j < |commits| && commits[j].sha == sha && commits[j].mail.Some?
  {
    hide EmailId.Format, EmailId.Parse, Archives;
    if commits == [] {
      NothingArchived(name, sha);
    } else {
      var older, c, n := commits[..|commits| - 1], Last(commits), |commits|;
      ArchivesExactly(older, position, name, sha);
      assert commits == older + [c];
      if c.mail.Some? {
        var email := EmailData(EmailId.Format(position + n, name, c.sha), c.mail.value);
        ArchivesConcat(EmailsOf(older, position, name), [email], name, sha);
        OneArchived(email, position + n, name, c.sha, sha);
      }
    }
  }

  lemma NothingArchived(name: string, sha: string)
    ensures !Archives([], name, sha)
  {
  }

  lemma OneArchived(email: EmailData, number: nat, name: string, sha: string, other: string)
    requires '-' !in name && number <= Decimal.USIZE_MAX && email.emailId == EmailId.Format(number, name, sha)
    ensures Archives([email], name, other) <==> sha == other
  {
    hide EmailId.Format, EmailId.Parse;
    EmailId.ParseInvertsFormat(number, name, sha);
    assert [email][0] == email;
  }
}
