/** Any number of runs over an inbox that does not change: what restarts still archive after a first
    run that left commits of the last epoch out. */
module InboxRestarts {
  import opened Prelude
  import opened EmailStore
  import opened PublicInbox
  import opened Epochs
  import opened InboxTheorems
  import opened InboxResume
  import opened InboxRuns
  import Decimal
  import EmailId

  // ----- one restart

  /** A restart after a first run, stopped or not, archives nothing if and only if the first run ended
      with the oldest commit, or its window has no message. */
  lemma NextArchivesNothingIff(inbox: Inbox, earlier: seq<EpochRepo>, e: EpochRepo, stop: Option<nat>)
    requires EndsWithEpoch(inbox, earlier, e) && DistinctShas(e.walk)
    requires Total(earlier) + |e.walk| <= Decimal.USIZE_MAX
    requires LastMail(e.walk[..Kept(Total(earlier), |e.walk|, stop)]).Some?
    ensures var n, first := |e.walk|, FirstRun(inbox, PollsFor(earlier, stop));
      var r := LastMail(e.walk[..Kept(Total(earlier), n, stop)]).value;
      RunFrom(inbox, StoredBy(first, "")) == []
      <==> r == n - 1 || LastMail(if r == 0 then e.walk[1..] else e.walk[..r]).None?
  {
    hide EndsWithEpoch, DistinctShas, FirstRun, RunFrom, LastMail, Kept, EmailsOf, PollsFor, StoredBy, StoredAt, Window;
    var g, n := Total(earlier), |e.walk|;
    var r := LastMail(e.walk[..Kept(g, n, stop)]).value;
    assert e.walk[0..] == e.walk;
    RunAfterFirst(inbox, inbox, earlier, e, e, stop);
    WindowAtRest(e, g, r);
    var Span(lo, hi) := Window(g, n, Progress(g + r + 1, r));
    LastEmail(e.walk[lo..hi], g + r + 1, e.name);
  }

  lemma WindowAtRest(e: EpochRepo, g: nat, r: nat)
    requires r < |e.walk|
    ensures var Span(lo, hi) := Window(g, |e.walk|, Progress(g + r + 1, r));
      e.walk[lo..hi] == if r == |e.walk| - 1 then [] else if r == 0 then e.walk[1..] else e.walk[..r]
    ensures LastMail([]).None?
  {
  }

  /** Where all commits have messages, the next run archives exactly the others, numbered on, if and
      only if the first one took one commit of the last epoch or all of them. */
  lemma InterruptedResumeIff(inbox: Inbox, earlier: seq<EpochRepo>, e: EpochRepo, stop: Option<nat>)
    requires EndsWithEpoch(inbox, earlier, e) && DistinctShas(e.walk) && AllHaveMail(e.walk)
    requires Total(earlier) + 2 * |e.walk| <= Decimal.USIZE_MAX && Kept(Total(earlier), |e.walk|, stop) > 0
    ensures var g, n := Total(earlier), |e.walk|;
      var m, first := Kept(g, n, stop), FirstRun(inbox, PollsFor(earlier, stop));
      RunFrom(inbox, StoredBy(first, "")) == EmailsOf(e.walk[m..], g + m, e.name) <==> m == 1 || m == n
  {
    hide EndsWithEpoch, DistinctShas, FirstRun, RunFrom, LastMail, Kept, EmailsOf, PollsFor, StoredBy, EmailId.Format;
    var g, n := Total(earlier), |e.walk|;
    var m := Kept(g, n, stop);
    ReadableLast(e.walk[..m]);
    assert e.walk[0..] == e.walk && e.walk[1..n] == e.walk[1..] && e.walk[0..m - 1] == e.walk[..m - 1];
    RunAfterFirst(inbox, inbox, earlier, e, e, stop);
    NameParses(inbox, earlier, e);
    OthersDiffer(e, g, m);
    assert m == n ==> e.walk[0..0] == e.walk[m..];
  }

  lemma OthersDiffer(e: EpochRepo, g: nat, m: nat)
    requires AllHaveMail(e.walk) && DistinctShas(e.walk) && '-' !in e.name
    requires g + 2 * |e.walk| <= Decimal.USIZE_MAX && m <= |e.walk|
    ensures 1 < m < |e.walk| ==> EmailsOf(e.walk[m..], g + m, e.name) != EmailsOf(e.walk[..m - 1], g + m, e.name)
  {
    hide EmailId.Format, EmailsOf;
    if 1 < m < |e.walk| {
      ReadableCount(e.walk[m..], g + m, e.name);
      ReadableCount(e.walk[..m - 1], g + m, e.name);
      assert e.walk[m..][0] == e.walk[m] && e.walk[..m - 1][0] == e.walk[0];
      if EmailsOf(e.walk[m..], g + m, e.name) == EmailsOf(e.walk[..m - 1], g + m, e.name) {
        EmailId.FormatInjective(g + m + 1, e.name, e.walk[m].sha, g + m + 1, e.name, e.walk[0].sha);
      }
    }
  }

  // ----- any number of restarts

  /** `runs` runs in a row, each from what the one before stored. */
  function Restarts(inbox: Inbox, stored: string, runs: nat): seq<EmailData>
    decreases runs
  {
    if runs == 0 then []
    else
      var now := RunFrom(inbox, stored);
      now + Restarts(inbox, StoredBy(now, stored), runs - 1)
  }

  /** An inbox at rest, with room for the numbers restarts use. */
  ghost predicate Resting(inbox: Inbox, earlier: seq<EpochRepo>, e: EpochRepo) {
    && EndsWithEpoch(inbox, earlier, e) && DistinctShas(e.walk)
    && Total(earlier) + 2 * |e.walk| <= Decimal.USIZE_MAX
  }

  /** A state that a first run or a restart leaves: fewer commits lie before the stored one than the
      stored number says. */
  predicate Regular(g: nat, walk: seq<Commit>, s: Progress) {
    s.index < |walk| && s.index < s.position <= g + 2 * |walk| && walk[s.index].mail.Some?
  }

  /** The sum of the places of all messages: what repeating them step by step adds up to. */
  function MailSum(commits: seq<Commit>): nat {
    if commits == [] then 0
    else MailSum(commits[..|commits| - 1]) + if Last(commits).mail.Some? then |commits| else 0
  }

  /** The sum that decides: the stored number plus all the repeats still to come. */
  function Reach(walk: seq<Commit>, s: Progress): nat
    requires s.index < |walk|
  {
    s.position + MailSum(walk[..s.index])
  }

  lemma {:induction false} SumToLast(commits: seq<Commit>)
    ensures var r := LastMail(commits);
      MailSum(commits) == if r.None? then 0 else MailSum(commits[..r.value]) + r.value + 1
  {
    if commits != [] && Last(commits).mail.None? {
      var older := commits[..|commits| - 1];
      SumToLast(older);
      assert LastMail(older).Some? ==> older[..LastMail(older).value] == commits[..LastMail(older).value];
    }
  }

  /** A run from a stored commit that is not the head repeats the messages before it, and leaves the
      state with the same reach; from the head it takes everything else. */
  lemma OneRestart(inbox: Inbox, earlier: seq<EpochRepo>, e: EpochRepo, s: Progress)
    requires Resting(inbox, earlier, e) && Regular(Total(earlier), e.walk, s)
    ensures var g, n, now := Total(earlier), |e.walk|, RunFrom(inbox, StoredAt(e, s));
      && (s.position >= g + n ==> now == [])
      && (s.position < g + n && s.index == 0 ==> now == EmailsOf(e.walk[1..], s.position, e.name))
      && (s.position < g + n && s.index > 0 ==> now == EmailsOf(e.walk[..s.index], s.position, e.name))
    ensures var g, n, r := Total(earlier), |e.walk|, LastMail(e.walk[..s.index]);
      var t := if s.position >= g + n || r.None? then s else Progress(s.position + r.value + 1, r.value);
      s.index > 0 ==>
        && StoredBy(RunFrom(inbox, StoredAt(e, s)), StoredAt(e, s)) == StoredAt(e, t)
        && Regular(g, e.walk, t)
        && (s.position < g + n ==> Reach(e.walk, t) == Reach(e.walk, s))
  {
    hide EndsWithEpoch, DistinctShas, RunFrom, LastMail, EmailsOf, StoredBy, StoredAt, MailSum, EmailId.Format;
    OneRun(inbox, earlier, e, s);
    NoEmails(s.position, e.name);
    assert e.walk[0..0] == [] && e.walk[1..|e.walk|] == e.walk[1..] && e.walk[0..s.index] == e.walk[..s.index];
    SumToLast(e.walk[..s.index]);
    NothingLast();
    var r := LastMail(e.walk[..s.index]);
    assert r.Some? ==> e.walk[..s.index][..r.value] == e.walk[..r.value];
  }

  lemma NothingLast()
    ensures LastMail([]).None?
  {
  }

  /** While the reach stays below the number of commits, and the head has a message, restarts move up
      to the head and the next one takes all the rest. */
  lemma {:induction false} ReachesHead(inbox: Inbox, earlier: seq<EpochRepo>, e: EpochRepo, s: Progress, i: nat,
                                       runs: nat)
    requires Resting(inbox, earlier, e) && Regular(Total(earlier), e.walk, s)
    requires e.walk[0].mail.Some? && Reach(e.walk, s) < Total(earlier) + |e.walk|
    requires 1 <= i < |e.walk| && e.walk[i].mail.Some? && runs > s.index
    ensures Archives(Restarts(inbox, StoredAt(e, s), runs), e.name, e.walk[i].sha)
    decreases runs
  {
    hide Resting, RunFrom, EmailsOf, Archives, StoredAt, StoredBy, MailSum, LastMail;
    OneRestart(inbox, earlier, e, s);
    var stored := StoredAt(e, s);
    var now := RunFrom(inbox, stored);
    ArchivesConcat(now, Restarts(inbox, StoredBy(now, stored), runs - 1), e.name, e.walk[i].sha);
    if s.index == 0 {
      OthersArchived(inbox, earlier, e, s.position, i);
    } else {
      var r := LastMail(e.walk[..s.index]);
      assert e.walk[..s.index][0] == e.walk[0];
      ReachesHead(inbox, earlier, e, Progress(s.position + r.value + 1, r.value), i, runs - 1);
    }
  }

  lemma OthersArchived(inbox: Inbox, earlier: seq<EpochRepo>, e: EpochRepo, position: nat, i: nat)
    requires Resting(inbox, earlier, e) && position <= Total(earlier) + |e.walk|
    requires 1 <= i < |e.walk| && e.walk[i].mail.Some?
    ensures Archives(EmailsOf(e.walk[1..], position, e.name), e.name, e.walk[i].sha)
  {
    hide EmailsOf, Archives, DistinctShas, EndsWithEpoch;
    NameParses(inbox, earlier, e);
    assert e.walk[1..][i - 1] == e.walk[i];
    ArchivesExactly(e.walk[1..], position, e.name, e.walk[i].sha);
  }

  /** The commits before one are archived, if they have messages, and this one is not. */
  lemma PrefixArchived(inbox: Inbox, earlier: seq<EpochRepo>, e: EpochRepo, position: nat, j: nat, i: nat)
    requires Resting(inbox, earlier, e) && position <= Total(earlier) + |e.walk| && j <= |e.walk| && i < |e.walk|
    ensures Archives(EmailsOf(e.walk[..j], position, e.name), e.name, e.walk[i].sha) <==> i < j && e.walk[i].mail.Some?
  {
    hide EmailsOf, Archives, EndsWithEpoch;
    NameParses(inbox, earlier, e);
    ArchivesExactly(e.walk[..j], position, e.name, e.walk[i].sha);
    assert i < j ==> e.walk[..j][i] == e.walk[i];
  }

  /** Once the reach is not below the number of commits, or when the head has no message, restarts
      never come to the head: whatever their number, they archive nothing but commits before the
      stored one. */
  lemma {:induction false} NeverGetsPast(inbox: Inbox, earlier: seq<EpochRepo>, e: EpochRepo, s: Progress, i: nat,
                                         runs: nat)
    requires Resting(inbox, earlier, e) && Regular(Total(earlier), e.walk, s)
    requires e.walk[0].mail.None? || Reach(e.walk, s) >= Total(earlier) + |e.walk|
    requires s.index <= i < |e.walk|
    ensures !Archives(Restarts(inbox, StoredAt(e, s), runs), e.name, e.walk[i].sha)
    decreases runs
  {
    hide EndsWithEpoch, DistinctShas, RunFrom, EmailsOf, Archives, StoredAt, StoredBy, LastMail, NamesCommit;
    var stored, sha, g := StoredAt(e, s), e.walk[i].sha, Total(earlier);
    if runs == 0 {
      NothingArchived(e.name, sha);
    } else {
      OneRestart(inbox, earlier, e, s);
      var now := RunFrom(inbox, stored);
      ArchivesConcat(now, Restarts(inbox, StoredBy(now, stored), runs - 1), e.name, sha);
      NothingArchived(e.name, sha);
      if s.position >= g + |e.walk| {
        StoresNothing(stored);
        NeverGetsPast(inbox, earlier, e, s, i, runs - 1);
      } else {
        var r := LastMail(e.walk[..s.index]);
        var t := if r.None? then s else Progress(s.position + r.value + 1, r.value);
        PrefixArchived(inbox, earlier, e, s.position, s.index, i);
        NeverGetsPast(inbox, earlier, e, t, i, runs - 1);
      }
    }
  }

  lemma StoresNothing(before: string)
    ensures StoredBy([], before) == before
  {
  }

  // ----- a first run, then restarts

  /** What is archived when a first run was stopped, or not, and `runs` restarts followed. */
  function AfterRestarts(inbox: Inbox, polls: Option<nat>, runs: nat): seq<EmailData> {
    var first := FirstRun(inbox, polls);
    first + Restarts(inbox, StoredBy(first, ""), runs)
  }

  /** Every message of the epoch is archived. */
  ghost predicate AllArchived(e: EpochRepo, emails: seq<EmailData>) {
    forall j :: 0 <= j < |e.walk| && e.walk[j].mail.Some? ==> Archives(emails, e.name, e.walk[j].sha)
  }

  /** The emails of earlier epochs name no commit of the last one. */
  lemma EarlierNameOthers(inbox: Inbox, earlier: seq<EpochRepo>, e: EpochRepo, sha: string)
    requires Resting(inbox, earlier, e)
    ensures !Archives(FreshEmails(earlier, 0), e.name, sha)
  {
    hide FreshEmails, AllCommits, EmailId.Format, EmailId.Parse, DistinctShas, EndsWithEpoch, FreshNumbers;
    var emails, ns, all := FreshEmails(earlier, 0), FreshNumbers(earlier, 0), AllCommits(earlier);
    FreshRunIsNumbered(earlier, 0);
    forall i | 0 <= i < |emails| ensures !NamesCommit(emails[i], e.name, sha) {
      var p, q := EntryOfEpoch(earlier, ns[i] - 1);
      EarlierNames(inbox, earlier, e, p);
      EmailId.ParseInvertsFormat(ns[i], earlier[p].name, all[ns[i] - 1].1.sha);
    }
  }

  lemma EarlierNames(inbox: Inbox, earlier: seq<EpochRepo>, e: EpochRepo, p: nat)
    requires EndsWithEpoch(inbox, earlier, e) && p < |earlier|
    ensures earlier[p].name != e.name && '-' !in earlier[p].name
  {
    hide Decimal.ParseUsize;
    V1IsNotANumber();
    var all := earlier + [e];
    assert all[p] == earlier[p] && all[|earlier|] == e && all[..|earlier|][p] == earlier[p];
    NameHasNoDash(earlier[p].name);
  }

  /** What a first run leaves of the last epoch, and which of its messages are archived. */
  lemma AfterFirst(inbox: Inbox, earlier: seq<EpochRepo>, e: EpochRepo, stop: Option<nat>, runs: nat, i: nat)
    requires Resting(inbox, earlier, e) && i < |e.walk|
    requires LastMail(e.walk[..Kept(Total(earlier), |e.walk|, stop)]).Some?
    ensures var g := Total(earlier);
      var m := Kept(g, |e.walk|, stop);
      var r := LastMail(e.walk[..m]).value;
      var s := Progress(g + r + 1, r);
      && Regular(g, e.walk, s) && Reach(e.walk, s) == g + MailSum(e.walk[..m])
      && (Archives(AfterRestarts(inbox, PollsFor(earlier, stop), runs), e.name, e.walk[i].sha)
          <==> (i < m && e.walk[i].mail.Some?)
               || Archives(Restarts(inbox, StoredAt(e, s), runs), e.name, e.walk[i].sha))
  {
    hide EndsWithEpoch, DistinctShas, FirstRun, RunFrom, LastMail, Kept, EmailsOf, PollsFor, StoredBy, StoredAt,
      MailSum, FreshEmails, Archives, Restarts;
    var g, sha := Total(earlier), e.walk[i].sha;
    var m, first := Kept(g, |e.walk|, stop), FirstRun(inbox, PollsFor(earlier, stop));
    var r := LastMail(e.walk[..m]).value;
    FirstStored(inbox, earlier, e, stop);
    EarlierNameOthers(inbox, earlier, e, sha);
    PrefixArchived(inbox, earlier, e, g, m, i);
    ArchivesConcat(FreshEmails(earlier, 0), EmailsOf(e.walk[..m], g, e.name), e.name, sha);
    ArchivesConcat(first, Restarts(inbox, StoredBy(first, ""), runs), e.name, sha);
    SumToLast(e.walk[..m]);
    assert e.walk[..m][..r] == e.walk[..r] && e.walk[..m][r] == e.walk[r];
  }

  /** No message is left behind the first run, or restarts come to the head. */
  predicate Heals(walk: seq<Commit>, m: nat)
    requires m <= |walk|
  {
    LastMail(walk[m..]).None? || (walk[0].mail.Some? && MailSum(walk[..m]) < |walk|)
  }

  lemma MessageLeft(walk: seq<Commit>, m: nat, i: nat)
    requires m <= i < |walk| && walk[i].mail.Some?
    ensures LastMail(walk[m..]).Some?
  {
    assert walk[m..][i - m] == walk[i];
  }

  lemma HealsAfter(inbox: Inbox, earlier: seq<EpochRepo>, e: EpochRepo, stop: Option<nat>)
    requires Resting(inbox, earlier, e)
    requires LastMail(e.walk[..Kept(Total(earlier), |e.walk|, stop)]).Some?
    requires Heals(e.walk, Kept(Total(earlier), |e.walk|, stop))
    ensures AllArchived(e, AfterRestarts(inbox, PollsFor(earlier, stop), |e.walk|))
  {
    hide Resting, AfterRestarts, Archives, StoredAt, Restarts, Kept, LastMail, MailSum, PollsFor, Regular;
    var n, m := |e.walk|, Kept(Total(earlier), |e.walk|, stop);
    forall i | 0 <= i < n && e.walk[i].mail.Some?
      ensures Archives(AfterRestarts(inbox, PollsFor(earlier, stop), n), e.name, e.walk[i].sha)
    {
      AfterFirst(inbox, earlier, e, stop, n, i);
      var r := LastMail(e.walk[..m]).value;
      if i >= m {
        MessageLeft(e.walk, m, i);
        ReachesHead(inbox, earlier, e, Progress(Total(earlier) + r + 1, r), i, n);
      }
    }
  }

  lemma StaysIncomplete(inbox: Inbox, earlier: seq<EpochRepo>, e: EpochRepo, stop: Option<nat>, runs: nat)
    requires Resting(inbox, earlier, e)
    requires LastMail(e.walk[..Kept(Total(earlier), |e.walk|, stop)]).Some?
    requires !Heals(e.walk, Kept(Total(earlier), |e.walk|, stop))
    ensures !AllArchived(e, AfterRestarts(inbox, PollsFor(earlier, stop), runs))
  {
    hide Resting, AfterRestarts, Archives, StoredAt, Restarts, Kept, MailSum, PollsFor, Regular;
    var m := Kept(Total(earlier), |e.walk|, stop);
    var i := m + LastMail(e.walk[m..]).value;
    assert e.walk[m..][i - m] == e.walk[i];
    AfterFirst(inbox, earlier, e, stop, runs, i);
    var r := LastMail(e.walk[..m]).value;
    NeverGetsPast(inbox, earlier, e, Progress(Total(earlier) + r + 1, r), i, runs);
  }

  /** Behind any earlier epochs and with any commits without messages: after a first run that took
      `m` commits of the last epoch, among them a message, some number of restarts completes the
      epoch if and only if no message was left, or the head has one and the places of the messages
      among the `m` add up to less than the length of the epoch. */
  lemma RestartsCompleteIff(inbox: Inbox, earlier: seq<EpochRepo>, e: EpochRepo, stop: Option<nat>)
    requires Resting(inbox, earlier, e)
    requires LastMail(e.walk[..Kept(Total(earlier), |e.walk|, stop)]).Some?
    ensures (exists runs :: AllArchived(e, AfterRestarts(inbox, PollsFor(earlier, stop), runs)))
            <==> Heals(e.walk, Kept(Total(earlier), |e.walk|, stop))
  {
    hide Resting, AllArchived, AfterRestarts, Heals, Kept, LastMail, PollsFor;
    if Heals(e.walk, Kept(Total(earlier), |e.walk|, stop)) {
      HealsAfter(inbox, earlier, e, stop);
    } else {
      forall runs ensures !AllArchived(e, AfterRestarts(inbox, PollsFor(earlier, stop), runs)) {
        StaysIncomplete(inbox, earlier, e, stop, runs);
      }
    }
  }

  lemma {:induction false} SumIsTriangle(commits: seq<Commit>)
    requires AllHaveMail(commits)
    ensures MailSum(commits) == |commits| * (|commits| + 1) / 2
  {
    if commits != [] {
      SumIsTriangle(commits[..|commits| - 1]);
      assert |commits| * (|commits| + 1) == (|commits| - 1) * |commits| + 2 * |commits|;
    }
  }

  /** Where all commits have messages: an archive interrupted after `m` of the `n` commits is completed
      by some number of restarts if and only if `m` is `n` or 1 + ... + `m` is less. */
  lemma InterruptionHealsIff(inbox: Inbox, earlier: seq<EpochRepo>, e: EpochRepo, stop: Option<nat>)
    requires Resting(inbox, earlier, e) && AllHaveMail(e.walk) && Kept(Total(earlier), |e.walk|, stop) > 0
    ensures var n, m := |e.walk|, Kept(Total(earlier), |e.walk|, stop);
      (exists runs :: AllArchived(e, AfterRestarts(inbox, PollsFor(earlier, stop), runs)))
      <==> m == n || m * (m + 1) / 2 < n
  {
    hide Resting, AllArchived, AfterRestarts, Kept, LastMail, PollsFor, MailSum;
    var m := Kept(Total(earlier), |e.walk|, stop);
    ReadableLast(e.walk[..m]);
    ReadableLast(e.walk[m..]);
    SumIsTriangle(e.walk[..m]);
    RestartsCompleteIff(inbox, earlier, e, stop);
  }

  /** A first run that was never stopped, over a last epoch of `n` behind `g` commits: restarts make
      up for what it left out if and only if it left out nothing, or 1 + ... + (n - g) < g - 1. */
  lemma CutShortHealsIff(inbox: Inbox, earlier: seq<EpochRepo>, e: EpochRepo)
    requires Resting(inbox, earlier, e) && AllHaveMail(e.walk) && e.walk != []
    ensures var n, g := |e.walk|, Total(earlier);
      (exists runs :: AllArchived(e, AfterRestarts(inbox, None, runs)))
      <==> !(n > g >= 2) || 1 + (n - g) * (n - g + 1) / 2 < g
  {
    hide Resting, AllArchived, AfterRestarts;
    var n, g := |e.walk|, Total(earlier);
    InterruptionHealsIff(inbox, earlier, e, None);
    assert PollsFor(earlier, None) == None;
    assert Kept(g, n, None) == n - Dropped(n, g);
    if n > g >= 2 {
      NextTriangle(n, g, Kept(g, n, None));
    }
  }

  lemma NextTriangle(n: nat, g: nat, m: nat)
    requires n > g && m == n - g + 1
    ensures m * (m + 1) / 2 < n <==> 1 + (n - g) * (n - g + 1) / 2 < g
  {
    assert m * (m + 1) == (n - g) * (n - g + 1) + 2 * (n - g + 1);
  }
}
