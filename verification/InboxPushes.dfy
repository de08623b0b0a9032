/** Pushes onto the last epoch of an inbox, with a run after each: when a run archives exactly what
    was pushed, and when every run of a history does. */
module InboxPushes {
  import opened Prelude
  import opened EmailStore
  import opened PublicInbox
  import opened InboxTheorems
  import opened InboxResume
  import opened InboxRuns
  import opened InboxRestarts
  import Decimal
  import EmailId

  // ----- one push after an undisturbed first run

  /** How many commits the next run takes when `k` are pushed onto the `n` of the last epoch, behind
      `g` in earlier epochs; the first run has left out the `Dropped(n, g)` oldest. */
  function Taken(g: nat, n: nat, k: nat): nat
    requires n > 0
  {
    var d := Dropped(n, g);
    if k == 0 && d == 0 then 0
    else if k > g + 1 && g + n - d >= 2 then k - g
    else n + k - 1 - d
  }

  /** Exactly the pushed ones: never when the first run was cut short; otherwise behind nothing,
      unless it is one onto two or more; behind `g` commits, only onto a single commit, and at most
      `g + 1`. */
  lemma TakenExactlyIff(g: nat, n: nat, k: nat)
    requires n > 0
    ensures Taken(g, n, k) == k
            <==> Dropped(n, g) == 0 && (k == 0 || if g == 0 then k != 1 || n == 1 else n == 1 && k <= g + 1)
    ensures Taken(0, n, 1) == n
    ensures Dropped(n, g) > 0 ==> Taken(g, n, 0) == n - g
  {
  }

  /** The first run ends with a message. */
  predicate EndsWithMail(e: EpochRepo, g: nat) {
    e.walk != [] && e.walk[|e.walk| - 1 - Dropped(|e.walk|, g)].mail.Some?
  }

  lemma WindowAfterPush(g: nat, n: nat, k: nat)
    requires n > 0
    ensures var d := Dropped(n, g);
      Taken(g, n, k) <= n + k && Window(g, n + k, Progress(g + n - d, n + k - 1 - d)) == Span(0, Taken(g, n, k))
  {
  }

  lemma LastKept(e: EpochRepo, g: nat)
    requires EndsWithMail(e, g)
    ensures LastMail(e.walk[..Kept(g, |e.walk|, None)]) == Some(|e.walk| - 1 - Dropped(|e.walk|, g))
  {
    assert e.walk[..Kept(g, |e.walk|, None)] != [];
  }

  /** A first run, `k` commits pushed onto the last epoch, the next run: it archives the newest
      `Taken` commits, numbered on from the last number in use. */
  lemma RunAfterPush(before: Inbox, after: Inbox, earlier: seq<EpochRepo>, e: EpochRepo, pushed: EpochRepo)
    requires EndsWithEpoch(before, earlier, e) && EndsWithEpoch(after, earlier, pushed)
    requires Grown(e, pushed) && DistinctShas(pushed.walk) && EndsWithMail(e, Total(earlier))
    requires Total(earlier) + |e.walk| <= Decimal.USIZE_MAX
    ensures FirstRun(before, None) == FreshEmails(earlier + [e], 0) != []
    ensures var g, n, k := Total(earlier), |e.walk|, |pushed.walk| - |e.walk|;
      && Taken(g, n, k) <= n + k
      && RunFrom(after, Last(FirstRun(before, None)).emailId)
           == EmailsOf(pushed.walk[..Taken(g, n, k)], g + n - Dropped(n, g), e.name)
  {
    hide FirstRun, RunFrom, Kept, LastMail, EndsWithEpoch, DistinctShas, EmailsOf, EndsWithMail, Taken, Window, Dropped,
      FreshEmails, EmailId.Format;
    var g, n, k := Total(earlier), |e.walk|, |pushed.walk| - |e.walk|;
    FirstIsFresh(before, earlier, e);
    LastKept(e, g);
    WindowAfterPush(g, n, k);
    InboxRuns.RunAfterFirst(before, after, earlier, e, pushed, None);
    assert pushed.walk[0..Taken(g, n, k)] == pushed.walk[..Taken(g, n, k)];
  }

  lemma FirstIsFresh(inbox: Inbox, earlier: seq<EpochRepo>, e: EpochRepo)
    requires EndsWithEpoch(inbox, earlier, e) && EndsWithMail(e, Total(earlier))
    ensures FirstRun(inbox, None) == FreshEmails(earlier + [e], 0) != []
  {
    hide PlanOf, PlanEmails, EndsWithEpoch, EmailsOf, LastMail, EndsWithMail, Kept, FreshEmails;
    PlanOfLast(inbox, earlier, e, 0, "");
    FreshRun(earlier + [e], 0);
    FirstStored(inbox, earlier, e, None);
    LastKept(e, Total(earlier));
    LastEmail(e.walk[..Kept(Total(earlier), |e.walk|, None)], Total(earlier), e.name);
  }

  /** The next run archives exactly the messages pushed if and only if no commit between the ones it
      takes and the ones pushed has a message. */
  lemma PushArchivedIff(before: Inbox, after: Inbox, earlier: seq<EpochRepo>, e: EpochRepo, pushed: EpochRepo)
    requires EndsWithEpoch(before, earlier, e) && EndsWithEpoch(after, earlier, pushed)
    requires Grown(e, pushed) && DistinctShas(pushed.walk) && EndsWithMail(e, Total(earlier))
    requires Total(earlier) + |e.walk| <= Decimal.USIZE_MAX
    ensures FirstRun(before, None) != []
    ensures var g, n, k := Total(earlier), |e.walk|, |pushed.walk| - |e.walk|;
      RunFrom(after, Last(FirstRun(before, None)).emailId) == EmailsOf(pushed.walk[..k], g + n - Dropped(n, g), e.name)
      <==> forall j :: Min(k, Taken(g, n, k)) <= j < Max(k, Taken(g, n, k)) && j < |pushed.walk| ==>
        pushed.walk[j].mail.None?
  {
    hide FirstRun, RunFrom, EndsWithEpoch, DistinctShas, EmailsOf, Taken, Dropped, FreshEmails;
    var g, n, k := Total(earlier), |e.walk|, |pushed.walk| - |e.walk|;
    RunAfterPush(before, after, earlier, e, pushed);
    EmailsBetween(pushed.walk, k, Taken(g, n, k), g + n - Dropped(n, g), e.name);
  }

  lemma EmailsBetween(commits: seq<Commit>, a: nat, b: nat, position: nat, name: string)
    requires a <= |commits| && b <= |commits|
    ensures EmailsOf(commits[..b], position, name) == EmailsOf(commits[..a], position, name)
            <==> forall j :: Min(a, b) <= j < Max(a, b) && j < |commits| ==> commits[j].mail.None?
  {
    hide EmailsOf;
    var lo, hi := Min(a, b), Max(a, b);
    EmailsOfPrefix(commits[..hi], lo, position, name);
    assert commits[..hi][..lo] == commits[..lo];
    assert forall j :: lo <= j < hi ==> commits[..hi][j] == commits[j];
  }

  /** Where all commits have messages: if and only if exactly the pushed ones are taken. */
  lemma PushArchivedExactlyIff(before: Inbox, after: Inbox, earlier: seq<EpochRepo>, e: EpochRepo, pushed: EpochRepo)
    requires EndsWithEpoch(before, earlier, e) && EndsWithEpoch(after, earlier, pushed)
    requires Grown(e, pushed) && DistinctShas(pushed.walk) && AllHaveMail(pushed.walk) && e.walk != []
    requires Total(earlier) + |e.walk| <= Decimal.USIZE_MAX
    ensures FirstRun(before, None) != []
    ensures var g, n, k := Total(earlier), |e.walk|, |pushed.walk| - |e.walk|;
      RunFrom(after, Last(FirstRun(before, None)).emailId) == EmailsOf(pushed.walk[..k], g + n - Dropped(n, g), e.name)
      <==> Dropped(n, g) == 0 && (k == 0 || if g == 0 then k != 1 || n == 1 else n == 1 && k <= g + 1)
  {
    hide FirstRun, RunFrom, EndsWithEpoch, DistinctShas, EmailsOf, Taken;
    var g, n, k := Total(earlier), |e.walk|, |pushed.walk| - |e.walk|;
    assert forall j :: 0 <= j < n ==> e.walk[j] == pushed.walk[k..][j];
    PushArchivedIff(before, after, earlier, e, pushed);
    TakenExactlyIff(g, n, k);
    WindowAfterPush(g, n, k);
    if Taken(g, n, k) != k {
      assert pushed.walk[Min(k, Taken(g, n, k))].mail.Some?;
    }
  }

  // ----- one push and any number of runs after it

  /** After the push, `runs` runs archive all that was pushed. */
  ghost predicate PushArrives(before: Inbox, after: Inbox, pushed: EpochRepo, k: nat, runs: nat)
    requires FirstRun(before, None) != [] && k <= |pushed.walk|
  {
    forall i :: 0 <= i < k ==>
      Archives(Restarts(after, Last(FirstRun(before, None)).emailId, runs), pushed.name, pushed.walk[i].sha)
  }

  /** The state the first run after the push leaves. */
  function PushState(g: nat, n: nat, k: nat): Progress
    requires n > 0 && k > g + 1
  {
    Progress(g + n - Dropped(n, g) + Taken(g, n, k), Taken(g, n, k) - 1)
  }

  /** Which pushed commits a run and further restarts archive. */
  lemma AfterPush(before: Inbox, after: Inbox, earlier: seq<EpochRepo>, e: EpochRepo, pushed: EpochRepo, runs: nat,
                  i: nat)
    requires EndsWithEpoch(before, earlier, e) && Resting(after, earlier, pushed) && Grown(e, pushed)
    requires AllHaveMail(pushed.walk) && e.walk != [] && 0 <= i < |pushed.walk|
    ensures FirstRun(before, None) != []
    ensures var g, n, k := Total(earlier), |e.walk|, |pushed.walk| - |e.walk|;
      var stored := Last(FirstRun(before, None)).emailId;
      && (i < Taken(g, n, k) ==> Archives(Restarts(after, stored, runs + 1), pushed.name, pushed.walk[i].sha))
      && (k > g + 1 ==>
            && Regular(g, pushed.walk, PushState(g, n, k))
            && (Archives(Restarts(after, stored, runs + 1), pushed.name, pushed.walk[i].sha)
                <==> i < Taken(g, n, k)
                     || Archives(Restarts(after, StoredAt(pushed, PushState(g, n, k)), runs), pushed.name,
                                 pushed.walk[i].sha)))
  {
    hide FirstRun, RunFrom, EndsWithEpoch, DistinctShas, EmailsOf, FreshEmails, Archives, EmailId.Format;
    var g, n, k := Total(earlier), |e.walk|, |pushed.walk| - |e.walk|;
    var t := Taken(g, n, k);
    assert forall j :: 0 <= j < n ==> e.walk[j] == pushed.walk[k..][j];
    RunAfterPush(before, after, earlier, e, pushed);
    var stored := Last(FirstRun(before, None)).emailId;
    var now := RunFrom(after, stored);
    PrefixArchived(after, earlier, pushed, g + n - Dropped(n, g), t, i);
    ArchivesConcat(now, Restarts(after, StoredBy(now, stored), runs), pushed.name, pushed.walk[i].sha);
    PrefixIsReadable(pushed.walk, t);
    ReadableCount(pushed.walk[..t], g + n - Dropped(n, g), e.name);
  }

  /** Where all commits have messages, behind `g` commits of earlier epochs: some number of runs
      archives all of the `k` pushed commits if and only if there are no earlier ones, or at most one
      more was pushed than there are, or the repeats of the first run after the push add up to less
      than the earlier commits and those the very first run dropped. Otherwise messages are lost. */
  lemma PushArrivesIff(before: Inbox, after: Inbox, earlier: seq<EpochRepo>, e: EpochRepo, pushed: EpochRepo)
    requires EndsWithEpoch(before, earlier, e) && Resting(after, earlier, pushed) && Grown(e, pushed)
    requires AllHaveMail(pushed.walk) && e.walk != []
    ensures FirstRun(before, None) != []
    ensures var g, n, k := Total(earlier), |e.walk|, |pushed.walk| - |e.walk|;
      (exists runs :: PushArrives(before, after, pushed, k, runs))
      <==> g == 0 || k <= g + 1 || (k - g - 1) * (k - g) / 2 < g + Dropped(n, g)
  {
    hide FirstRun, EndsWithEpoch, DistinctShas, Archives, Restarts, AllHaveMail, Resting, PushArrives;
    var g, n, k := Total(earlier), |e.walk|, |pushed.walk| - |e.walk|;
    AfterPush(before, after, earlier, e, pushed, 0, 0);
    if g == 0 || k <= g + 1 {
      Arrives(before, after, earlier, e, pushed, 0);
    } else if (k - g - 1) * (k - g) / 2 < g + Dropped(n, g) {
      Arrives(before, after, earlier, e, pushed, k);
    } else {
      forall runs: nat ensures !PushArrives(before, after, pushed, k, runs) {
        NeverArrives(before, after, earlier, e, pushed, runs);
      }
    }
  }

  lemma PushReach(e: EpochRepo, g: nat, n: nat, k: nat)
    requires n > 0 && k > g + 1 > 1 && |e.walk| == n + k && AllHaveMail(e.walk)
    ensures PushState(g, n, k).index == k - g - 1
    ensures Reach(e.walk, PushState(g, n, k)) < g + n + k <==> (k - g - 1) * (k - g) / 2 < g + Dropped(n, g)
  {
    hide MailSum;
    PrefixIsReadable(e.walk, k - g - 1);
    SumIsTriangle(e.walk[..k - g - 1]);
  }

  lemma Arrives(before: Inbox, after: Inbox, earlier: seq<EpochRepo>, e: EpochRepo, pushed: EpochRepo, runs: nat)
    requires EndsWithEpoch(before, earlier, e) && Resting(after, earlier, pushed) && Grown(e, pushed)
    requires AllHaveMail(pushed.walk) && e.walk != [] && FirstRun(before, None) != []
    requires var g, n, k := Total(earlier), |e.walk|, |pushed.walk| - |e.walk|;
      g == 0 || k <= g + 1 || (runs == k && (k - g - 1) * (k - g) / 2 < g + Dropped(n, g))
    ensures PushArrives(before, after, pushed, |pushed.walk| - |e.walk|, runs + 1)
  {
    hide FirstRun, EndsWithEpoch, DistinctShas, Archives, Restarts, Resting, MailSum, StoredAt, Grown;
    var g, n, k := Total(earlier), |e.walk|, |pushed.walk| - |e.walk|;
    forall i | 0 <= i < k
      ensures Archives(Restarts(after, Last(FirstRun(before, None)).emailId, runs + 1), pushed.name, pushed.walk[i].sha)
    {
      AfterPush(before, after, earlier, e, pushed, runs, i);
      if i >= Taken(g, n, k) {
        PushReach(pushed, g, n, k);
        ReachesHead(after, earlier, pushed, PushState(g, n, k), i, runs);
      }
    }
  }

  lemma NeverArrives(before: Inbox, after: Inbox, earlier: seq<EpochRepo>, e: EpochRepo, pushed: EpochRepo, runs: nat)
    requires EndsWithEpoch(before, earlier, e) && Resting(after, earlier, pushed) && Grown(e, pushed)
    requires AllHaveMail(pushed.walk) && e.walk != [] && FirstRun(before, None) != []
    requires var g, n, k := Total(earlier), |e.walk|, |pushed.walk| - |e.walk|;
      k > g + 1 > 1 && (k - g - 1) * (k - g) / 2 >= g + Dropped(n, g)
    ensures !PushArrives(before, after, pushed, |pushed.walk| - |e.walk|, runs)
  {
    hide FirstRun, EndsWithEpoch, DistinctShas, Archives, Resting, MailSum, StoredAt, Grown, RunFrom, AllHaveMail;
    var g, n, k := Total(earlier), |e.walk|, |pushed.walk| - |e.walk|;
    var i := Taken(g, n, k);
    if runs == 0 {
      NothingArchived(pushed.name, pushed.walk[0].sha);
    } else {
      AfterPush(before, after, earlier, e, pushed, runs - 1, i);
      PushReach(pushed, g, n, k);
      NeverGetsPast(after, earlier, pushed, PushState(g, n, k), i, runs - 1);
    }
  }

  // ----- histories of pushes

  /** An inbox as it is before each run: the last epoch grows by one commit or more each time. */
  ghost predicate History(earlier: seq<EpochRepo>, inboxes: seq<Inbox>, es: seq<EpochRepo>) {
    && |inboxes| == |es| > 0 && es[0].walk != []
    && (forall i :: 0 <= i < |es| ==> EndsWithEpoch(inboxes[i], earlier, es[i]))
    && (forall i :: 0 < i < |es| ==> Grown(es[i - 1], es[i]) && |es[i - 1].walk| < |es[i].walk|)
    && (forall i :: 0 <= i < |es| ==> DistinctShas(es[i].walk) && AllHaveMail(es[i].walk))
    && (forall i :: 0 <= i < |es| ==> Total(earlier) + 2 * |es[i].walk| <= Decimal.USIZE_MAX)
  }

  /** What run `i` archives, each from what the runs before it have left. */
  function RunOf(inboxes: seq<Inbox>, i: nat): seq<EmailData>
    requires i < |inboxes|
    decreases i, 0
  {
    if i == 0 then FirstRun(inboxes[0], None) else RunFrom(inboxes[i], StoredAfter(inboxes, i - 1))
  }

  function StoredAfter(inboxes: seq<Inbox>, i: nat): string
    requires i < |inboxes|
    decreases i, 1
  {
    StoredBy(RunOf(inboxes, i), if i == 0 then "" else StoredAfter(inboxes, i - 1))
  }

  /** How many commits were pushed before run `i`. */
  function Pushed(es: seq<EpochRepo>, i: nat): int
    requires 0 < i < |es|
  {
    |es[i].walk| - |es[i - 1].walk|
  }

  /** One email for each of these commits, in their order, and no other. */
  ghost predicate ArchivesJust(emails: seq<EmailData>, name: string, commits: seq<Commit>) {
    |emails| == |commits| && forall j :: 0 <= j < |emails| ==> NamesCommit(emails[j], name, commits[j].sha)
  }

  ghost predicate ExactRun(inboxes: seq<Inbox>, es: seq<EpochRepo>, i: nat)
    requires |inboxes| == |es| && 0 < i < |es| && |es[i - 1].walk| <= |es[i].walk|
  {
    ArchivesJust(RunOf(inboxes, i), es[i].name, es[i].walk[..Pushed(es, i)])
  }

  /** Runs 1 to `i` archive exactly what was pushed before each. */
  ghost predicate AllExact(earlier: seq<EpochRepo>, inboxes: seq<Inbox>, es: seq<EpochRepo>, i: nat)
    requires History(earlier, inboxes, es) && i < |es|
  {
    forall j :: 0 < j <= i ==> ExactRun(inboxes, es, j)
  }

  /** The condition on the numbers of commits: nothing pushed; one push behind nothing, onto a single
      commit or of more than one; or a single commit at first, one pushed each time but the last,
      and then at most as many as the runs and the earlier commits. */
  ghost predicate Fits(g: nat, es: seq<EpochRepo>, i: nat)
    requires i < |es|
  {
    var n := |es[0].walk|;
    || i == 0
    || (i == 1 && g == 0 && (n == 1 || Pushed(es, 1) >= 2))
    || (n == 1 && Pushed(es, i) <= g + i && forall j :: 0 < j < i ==> Pushed(es, j) == 1)
  }

  /** The state that runs leave as long as each was exact. */
  function ExactState(g: nat, es: seq<EpochRepo>, i: nat): Progress
    requires i < |es| && es[0].walk != [] && (i > 0 ==> Pushed(es, i) > 0)
  {
    var n := |es[i].walk|;
    if i == 0 then Progress(g + n - Dropped(n, g), n - 1 - Dropped(n, g)) else Progress(g + n, Pushed(es, i) - 1)
  }

  /** The window of the next run is the pushed commits. */
  predicate NextFits(g: nat, es: seq<EpochRepo>, i: nat)
    requires i + 1 < |es| && es[0].walk != [] && (i > 0 ==> Pushed(es, i) > 0) && Pushed(es, i + 1) > 0
  {
    var k, n := Pushed(es, i + 1), |es[i].walk|;
    if i == 0 then Dropped(n, g) == 0 && (if g == 0 then k != 1 || n == 1 else n == 1 && k <= g + 1)
    else Pushed(es, i) == 1 && k <= g + n
  }

  /** After exact runs: where the next window lies. */
  lemma NextWindow(g: nat, es: seq<EpochRepo>, i: nat)
    requires i + 1 < |es| && es[0].walk != [] && (i > 0 ==> Pushed(es, i) > 0) && Pushed(es, i + 1) > 0
    requires i > 0 ==> Pushed(es, i) < |es[i].walk|
    ensures var k, s := Pushed(es, i + 1), ExactState(g, es, i);
      && k + s.index < |es[i + 1].walk|
      && var w := Window(g, |es[i + 1].walk|, Progress(s.position, k + s.index));
         w.lo == 0 && w.hi > 0 && (w.hi == k <==> NextFits(g, es, i))
    ensures NextFits(g, es, i) ==> ExactState(g, es, i).position == g + |es[i].walk|
  {
  }

  /** A window of readable commits is the newest `k` exactly when it is as long. */
  lemma WindowIsExact(commits: seq<Commit>, hi: nat, k: nat, position: nat, name: string)
    requires AllHaveMail(commits) && hi <= |commits| && k <= |commits|
    requires '-' !in name && position + hi <= Decimal.USIZE_MAX
    ensures ArchivesJust(EmailsOf(commits[..hi], position, name), name, commits[..k]) <==> hi == k
  {
    hide EmailId.Format, EmailId.Parse, EmailsOf;
    ReadableCount(commits[..hi], position, name);
    forall j | 0 <= j < hi
      ensures NamesCommit(EmailsOf(commits[..hi], position, name)[j], name, commits[j].sha)
    {
      EmailId.ParseInvertsFormat(position + j + 1, name, commits[j].sha);
    }
  }

  /** Where all commits have messages, a run leaves the last of its window stored. */
  lemma NextReadable(g: nat, walk: seq<Commit>, s: Progress)
    requires s.index < |walk| && AllHaveMail(walk)
    ensures var Span(lo, hi) := Window(g, |walk|, s);
      NextProgress(g, walk, s) == if lo == hi then s else Progress(s.position + hi - lo, hi - 1)
  {
    hide LastMail, Window;
    var Span(lo, hi) := Window(g, |walk|, s);
    ReadableLast(walk[lo..hi]);
  }

  /** A run after a push, from any state: the window for the stored commit, now further back. */
  lemma NextRun(earlier: seq<EpochRepo>, inboxes: seq<Inbox>, es: seq<EpochRepo>, i: nat, s: Progress)
    requires History(earlier, inboxes, es) && i + 1 < |es|
    requires s.index < |es[i].walk| && s.position <= Decimal.USIZE_MAX
    requires StoredAfter(inboxes, i) == StoredAt(es[i], s)
    ensures var g, e, t := Total(earlier), es[i + 1], Progress(s.position, Pushed(es, i + 1) + s.index);
      && t.index < |e.walk| && e.walk[t.index] == es[i].walk[s.index]
      && var Span(lo, hi) := Window(g, |e.walk|, t);
         && RunOf(inboxes, i + 1) == EmailsOf(e.walk[lo..hi], s.position, e.name)
         && StoredAfter(inboxes, i + 1) == StoredAt(e, NextProgress(g, e.walk, t))
  {
    hide EndsWithEpoch, DistinctShas, EmailsOf, RunFrom, FirstRun, EmailId.Format, Window, AllHaveMail, NextProgress,
      StoredBy;
    var e, t := es[i + 1], Progress(s.position, Pushed(es, i + 1) + s.index);
    assert Grown(es[i], e);
    assert e.walk[Pushed(es, i + 1)..][s.index] == es[i].walk[s.index];
    assert StoredAfter(inboxes, i) == StoredAt(e, t);
    OneRun(inboxes[i + 1], earlier, e, t);
  }

  lemma NeverEmpty(earlier: seq<EpochRepo>, inboxes: seq<Inbox>, es: seq<EpochRepo>, i: nat)
    requires History(earlier, inboxes, es) && i < |es|
    ensures es[i].walk != [] && (i > 0 ==> 0 < Pushed(es, i) < |es[i].walk|)
  {
    hide EndsWithEpoch, Grown, AllHaveMail, DistinctShas;
    if i > 1 {
      assert |es[i - 2].walk| < |es[i - 1].walk| by {
        assert 0 < i - 1 < |es|;
      }
    }
  }

  /** One step: from the state exact runs have left, the next is exact if and only if its window
      fits, and then it leaves the next such state. */
  lemma ExactStep(earlier: seq<EpochRepo>, inboxes: seq<Inbox>, es: seq<EpochRepo>, i: nat)
    requires History(earlier, inboxes, es) && i + 1 < |es|
    requires StoredAfter(inboxes, i) == StoredAt(es[i], ExactState(Total(earlier), es, i))
    ensures ExactRun(inboxes, es, i + 1) <==> NextFits(Total(earlier), es, i)
    ensures ExactRun(inboxes, es, i + 1) ==>
      StoredAfter(inboxes, i + 1) == StoredAt(es[i + 1], ExactState(Total(earlier), es, i + 1))
  {
    hide EndsWithEpoch, DistinctShas, EmailsOf, RunOf, StoredAfter, EmailId.Format, NextFits, Window, AllHaveMail,
      ArchivesJust, StoredAt, NextProgress, Dropped, Grown;
    var g, e, k, s := Total(earlier), es[i + 1], Pushed(es, i + 1), ExactState(Total(earlier), es, i);
    NeverEmpty(earlier, inboxes, es, i);
    NextRun(earlier, inboxes, es, i, s);
    NextWindow(g, es, i);
    var hi := Window(g, |e.walk|, Progress(s.position, k + s.index)).hi;
    assert e.walk[0..hi] == e.walk[..hi];
    NameParses(inboxes[i + 1], earlier, e);
    WindowIsExact(e.walk, hi, k, s.position, e.name);
    NextReadable(g, e.walk, Progress(s.position, k + s.index));
  }

  lemma ExactStart(earlier: seq<EpochRepo>, inboxes: seq<Inbox>, es: seq<EpochRepo>)
    requires History(earlier, inboxes, es)
    ensures StoredAfter(inboxes, 0) == StoredAt(es[0], ExactState(Total(earlier), es, 0))
  {
    hide EndsWithEpoch, DistinctShas, EmailsOf, FirstRun, EmailId.Format, LastMail, Kept, FreshEmails;
    FirstStored(inboxes[0], earlier, es[0], None);
    LastKept(es[0], Total(earlier));
  }

  lemma {:induction false} AllOnes(es: seq<EpochRepo>, i: nat)
    requires i < |es| && forall j :: 0 < j <= i ==> Pushed(es, j) == 1
    ensures |es[i].walk| == |es[0].walk| + i
  {
    if i > 0 {
      AllOnes(es, i - 1);
      assert Pushed(es, i) == 1;
    }
  }

  lemma FitsStep(g: nat, es: seq<EpochRepo>, i: nat)
    requires i + 1 < |es| && es[0].walk != [] && forall j :: 0 < j <= i + 1 ==> Pushed(es, j) > 0
    ensures Fits(g, es, i + 1) <==> Fits(g, es, i) && NextFits(g, es, i)
  {
    if i > 0 && (forall j :: 0 < j <= i ==> Pushed(es, j) == 1) {
      AllOnes(es, i);
    }
  }

  /** In a history of pushes, every run archives exactly what was pushed before it if and only if the
      numbers of commits fit. */
  lemma {:induction false} EveryRunExactIff(earlier: seq<EpochRepo>, inboxes: seq<Inbox>, es: seq<EpochRepo>, i: nat)
    requires History(earlier, inboxes, es) && i < |es|
    ensures AllExact(earlier, inboxes, es, i) <==> Fits(Total(earlier), es, i)
    ensures AllExact(earlier, inboxes, es, i) ==>
      StoredAfter(inboxes, i) == StoredAt(es[i], ExactState(Total(earlier), es, i))
  {
    hide History, Fits, ExactState, ExactRun, StoredAfter, NextFits, StoredAt;
    if i == 0 {
      ExactStart(earlier, inboxes, es);
      FitsNothing(Total(earlier), es);
    } else {
      EveryRunExactIff(earlier, inboxes, es, i - 1);
      PushedSome(earlier, inboxes, es);
      FitsStep(Total(earlier), es, i - 1);
      if AllExact(earlier, inboxes, es, i - 1) {
        ExactStep(earlier, inboxes, es, i - 1);
      }
    }
  }

  lemma FitsNothing(g: nat, es: seq<EpochRepo>)
    requires es != []
    ensures Fits(g, es, 0)
  {
  }

  lemma PushedSome(earlier: seq<EpochRepo>, inboxes: seq<Inbox>, es: seq<EpochRepo>)
    requires History(earlier, inboxes, es)
    ensures es[0].walk != [] && forall j :: 0 < j < |es| ==> Pushed(es, j) > 0
  {
  }

  // ----- what goes wrong otherwise

  predicate Sizes(es: seq<EpochRepo>, ns: seq<nat>) {
    |es| == |ns| && forall i :: 0 <= i < |es| ==> |es[i].walk| == ns[i]
  }

  /** What the first of several runs over one epoch does. */
  lemma FirstOfAll(inboxes: seq<Inbox>, es: seq<EpochRepo>)
    requires History([], inboxes, es)
    ensures RunOf(inboxes, 0) == EmailsOf(es[0].walk, 0, es[0].name)
    ensures StoredAfter(inboxes, 0) == StoredAt(es[0], Progress(|es[0].walk|, |es[0].walk| - 1))
  {
    hide EndsWithEpoch, DistinctShas, EmailsOf, LastMail, FirstRun, StoredAt;
    var walk := es[0].walk;
    ExactStart([], inboxes, es);
    EmptyTotal();
    FirstStored(inboxes[0], [], es[0], None);
    assert walk[..Kept(0, |walk|, None)] == walk;
    assert [] + EmailsOf(walk, 0, es[0].name) == EmailsOf(walk, 0, es[0].name);
  }

  /** One run of a history, for a window that is known. */
  lemma KnownRun(inboxes: seq<Inbox>, es: seq<EpochRepo>, i: nat, s: Progress, lo: nat, hi: nat)
    requires History([], inboxes, es) && i + 1 < |es|
    requires s.index < |es[i].walk| && s.position <= 2 * |es[i].walk|
    requires StoredAfter(inboxes, i) == StoredAt(es[i], s)
    requires Pushed(es, i + 1) + s.index < |es[i + 1].walk|
    requires Window(0, |es[i + 1].walk|, Progress(s.position, Pushed(es, i + 1) + s.index)) == Span(lo, hi)
    ensures RunOf(inboxes, i + 1) == EmailsOf(es[i + 1].walk[lo..hi], s.position, es[i + 1].name)
    ensures lo < hi ==> StoredAfter(inboxes, i + 1) == StoredAt(es[i + 1], Progress(s.position + hi - lo, hi - 1))
  {
    hide EndsWithEpoch, DistinctShas, EmailsOf, RunOf, StoredAfter, StoredAt, NextProgress, AllHaveMail, Window, Grown;
    EmptyTotal();
    NextRun([], inboxes, es, i, s);
    NextReadable(0, es[i + 1].walk, Progress(s.position, Pushed(es, i + 1) + s.index));
  }

  /** One commit, one pushed, three pushed. */
  lemma LostRuns(inboxes: seq<Inbox>, es: seq<EpochRepo>)
    requires History([], inboxes, es) && Sizes(es, [1, 2, 5])
    ensures var e := es[2];
      && RunOf(inboxes, 0) == EmailsOf(e.walk[4..5], 0, e.name)
      && RunOf(inboxes, 1) == EmailsOf(e.walk[3..4], 1, e.name)
      && RunOf(inboxes, 2) == EmailsOf(e.walk[0..2], 2, e.name)
      && StoredAfter(inboxes, 2) == StoredAt(e, Progress(4, 1))
  {
    hide EndsWithEpoch, DistinctShas, EmailsOf, RunOf, StoredAfter, StoredAt, AllHaveMail;
    FirstOfAll(inboxes, es);
    KnownRun(inboxes, es, 0, Progress(1, 0), 0, 1);
    KnownRun(inboxes, es, 1, Progress(2, 0), 0, 2);
    assert Grown(es[0], es[1]) && Grown(es[1], es[2]);
    assert es[0].walk == es[2].walk[4..5] && es[1].walk[0..1] == es[2].walk[3..4];
  }

  /** A stretch of the walk that a commit is not in does not archive it. */
  lemma NotAmong(inbox: Inbox, earlier: seq<EpochRepo>, e: EpochRepo, lo: nat, hi: nat, position: nat, i: nat)
    requires Resting(inbox, earlier, e) && lo <= hi <= |e.walk| && i < |e.walk| && !(lo <= i < hi)
    requires position <= Total(earlier) + |e.walk|
    ensures !Archives(EmailsOf(e.walk[lo..hi], position, e.name), e.name, e.walk[i].sha)
  {
    hide EmailsOf, Archives, EndsWithEpoch;
    NameParses(inbox, earlier, e);
    ArchivesExactly(e.walk[lo..hi], position, e.name, e.walk[i].sha);
    assert forall j :: 0 <= j < hi - lo ==> e.walk[lo..hi][j] == e.walk[lo + j];
  }

  /** The last run takes only two of the three, and no number of restarts ever archives the third. */
  lemma PushedIsLost(inboxes: seq<Inbox>, es: seq<EpochRepo>, runs: nat)
    requires History([], inboxes, es) && Sizes(es, [1, 2, 5])
    ensures var e := es[2];
      !Archives(RunOf(inboxes, 0) + RunOf(inboxes, 1) + RunOf(inboxes, 2)
                  + Restarts(inboxes[2], StoredAfter(inboxes, 2), runs), e.name, e.walk[2].sha)
  {
    hide RunOf, StoredAfter, Archives, EmailsOf, Restarts, StoredAt, EndsWithEpoch, DistinctShas;
    var e, sha, later := es[2], es[2].walk[2].sha, Restarts(inboxes[2], StoredAfter(inboxes, 2), runs);
    var first, second, third := RunOf(inboxes, 0), RunOf(inboxes, 1), RunOf(inboxes, 2);
    EmptyTotal();
    LostRuns(inboxes, es);
    NotAmong(inboxes[2], [], e, 4, 5, 0, 2);
    NotAmong(inboxes[2], [], e, 3, 4, 1, 2);
    NotAmong(inboxes[2], [], e, 0, 2, 2, 2);
    assert e.walk[..1][..0] == [] && MailSum(e.walk[..1]) == 1;
    NeverGetsPast(inboxes[2], [], e, Progress(4, 1), 2, runs);
    ArchivesConcat(first, second, e.name, sha);
    ArchivesConcat(first + second, third, e.name, sha);
    ArchivesConcat(first + second + third, later, e.name, sha);
  }

  /** Three commits, one pushed, one more pushed: the last run archives nothing. */
  lemma PushIsSkipped(inboxes: seq<Inbox>, es: seq<EpochRepo>)
    requires History([], inboxes, es) && Sizes(es, [3, 4, 5])
    ensures RunOf(inboxes, 2) == []
  {
    hide History, EmailsOf, RunOf, StoredAfter, StoredAt;
    FirstOfAll(inboxes, es);
    KnownRun(inboxes, es, 0, Progress(3, 2), 0, 3);
    KnownRun(inboxes, es, 1, Progress(6, 2), 0, 0);
    assert es[2].walk[0..0] == [];
    NoEmails(6, es[2].name);
  }
}
