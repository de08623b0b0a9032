/** What whole runs over a public inbox archive: fresh runs, restarts, pushes and interruptions. */
module InboxTheorems {
  import opened Prelude
  import opened EmailStore
  import opened PublicInbox
  import Decimal
  import EmailId
  import Text

  // ----- fresh runs

  function Total(epochs: seq<EpochRepo>): nat {
    if epochs == [] then 0 else |epochs[0].walk| + Total(epochs[1..])
  }

  /** How many of the oldest commits of an epoch of `n` a fresh run leaves out after `g` earlier ones. */
  function Dropped(n: nat, g: nat): (d: nat)
    ensures d <= n
  {
    if n > g && g >= 2 then g - 1 else 0
  }

  /** The closed form of a run from position `g` without a stored commit. */
  function FreshEmails(epochs: seq<EpochRepo>, g: nat): seq<EmailData> {
    if epochs == [] then []
    else
      var walk := epochs[0].walk;
      EmailsOf(walk[..|walk| - Dropped(|walk|, g)], g, epochs[0].name) + FreshEmails(epochs[1..], g + |walk|)
  }

  lemma WantedAll(visible: seq<Commit>, position: nat)
    ensures Wanted(visible, position, None) == visible
  {
    if visible != [] {
      WantedAll(visible[..|visible| - 1], position);
      assert visible == visible[..|visible| - 1] + [Last(visible)];
    }
  }

  lemma NoResume(walk: seq<Commit>)
    ensures IndexOfSha(walk, None) == |walk| && !AtHead(walk, None)
  {
  }

  /** An epoch visited afresh counts all its commits and processes the newest `n - d` of them. */
  lemma FreshEpoch(e: EpochRepo, g: nat)
    ensures var t, n := Task(e, ResumeSha(e, None), g, None), |e.walk|;
      && t.VisibleAt(n) == e.walk
      && t.PickedAt(n) == e.walk[..n - Dropped(n, g)]
  {
    NoResume(e.walk);
    WantedAll(e.walk, g);
  }

  /** The closed form of a fresh, undisturbed run over any list of epochs. */
  lemma {:induction false} FreshRun(epochs: seq<EpochRepo>, g: nat)
    ensures PlanEmails(Plan(epochs, None, g, g), None, None) == FreshEmails(epochs, g)
    decreases |epochs|
  {
    hide PlanEmails, EmailsOf, Task.EmailsAt, Task.VisibleAt, Task.PickedAt, Dropped;
    var p := Plan(epochs, None, g, g);
    if epochs == [] {
      PlanDone(p, None, None);
    } else {
      PlanStep(p, None, None, []);
      FreshEpoch(epochs[0], g);
      FreshRun(epochs[1..], g + |epochs[0].walk|);
      FreshStep(epochs, g);
      var emails := FirstTask(p, None).EmailsAt(|epochs[0].walk|);
      assert [] + PlanEmails(p, None, None) == PlanEmails(p, None, None) && [] + emails == emails;
    }
  }

  lemma NoEmails(position: nat, name: string)
    ensures EmailsOf([], position, name) == []
  {
  }

  lemma FreshStep(epochs: seq<EpochRepo>, g: nat)
    requires epochs != []
    ensures var t := FirstTask(Plan(epochs, None, g, g), None);
      && FreshEmails(epochs, g) == t.EmailsAt(|t.epoch.walk|) + FreshEmails(epochs[1..], g + |epochs[0].walk|)
      && (epochs[0].walk == [] ==> FreshEmails(epochs, g) == FreshEmails(epochs[1..], g))
  {
    hide EmailsOf, Task.PickedAt, Task.VisibleAt, Dropped, ResumeSha;
    FreshEpoch(epochs[0], g);
    NoEmails(g, epochs[0].name);
  }

  /** Every readable commit of every epoch, numbered by its place in the whole inbox. */
  function CompleteEmails(epochs: seq<EpochRepo>, g: nat): seq<EmailData> {
    if epochs == [] then []
    else EmailsOf(epochs[0].walk, g, epochs[0].name) + CompleteEmails(epochs[1..], g + |epochs[0].walk|)
  }

  /** Commits in the epochs before epoch `i`. */
  function Offset(epochs: seq<EpochRepo>, i: nat): nat
    requires i <= |epochs|
  {
    Total(epochs[..i])
  }

  /** The commits a fresh run drops exist exactly in an epoch longer than the two or more commits
      before it. */
  predicate HasGap(epochs: seq<EpochRepo>, i: nat, g: nat)
    requires i < |epochs|
  {
    |epochs[i].walk| > g + Offset(epochs, i) >= 2
  }

  ghost predicate GapFree(epochs: seq<EpochRepo>, g: nat) {
    forall i :: 0 <= i < |epochs| ==> !HasGap(epochs, i, g)
  }

  predicate AllReadable(epochs: seq<EpochRepo>) {
    forall i, j :: 0 <= i < |epochs| && 0 <= j < |epochs[i].walk| ==> epochs[i].walk[j].mail.Some?
  }

  lemma OffsetShift(epochs: seq<EpochRepo>, i: nat)
    requires 0 < i <= |epochs|
    ensures Offset(epochs, i) == |epochs[0].walk| + Offset(epochs[1..], i - 1)
    ensures Offset(epochs, 0) == 0
  {
    assert epochs[..i][0] == epochs[0] && epochs[..i][1..] == epochs[1..][..i - 1];
  }

  /** Leaving out the oldest commits loses nothing exactly when none of them has a message. */
  lemma {:induction false} EmailsOfPrefix(commits: seq<Commit>, k: nat, g: nat, name: string)
    requires k <= |commits|
    ensures EmailsOf(commits[..k], g, name) <= EmailsOf(commits, g, name)
    ensures EmailsOf(commits[..k], g, name) == EmailsOf(commits, g, name)
            <==> forall j :: k <= j < |commits| ==> commits[j].mail.None?
  {
    hide EmailId.Format;
    if k == |commits| {
      assert commits[..k] == commits;
    } else {
      var older := commits[..|commits| - 1];
      EmailsOfPrefix(older, k, g, name);
      assert older[..k] == commits[..k];
    }
  }

  /** Every processed commit is either archived or logged. */
  lemma {:induction false} ArchivedOrLogged(commits: seq<Commit>, g: nat, name: string)
    ensures |EmailsOf(commits, g, name)| + |ErrorsOf(commits)| == |commits|
  {
    hide EmailId.Format;
    if commits != [] {
      ArchivedOrLogged(commits[..|commits| - 1], g, name);
    }
  }

  /** What is logged names exactly the commits without a message. */
  lemma {:induction false} LoggedExactly(commits: seq<Commit>, sha: string, text: string)
    ensures (sha, text) in ErrorsOf(commits)
            <==> text == "error reading content for commit"
                 && exists j :: 0 <= j < |commits| && commits[j].sha == sha && commits[j].mail.None?
  {
    if commits != [] {
      LoggedExactly(commits[..|commits| - 1], sha, text);
      assert commits == commits[..|commits| - 1] + [Last(commits)];
    }
  }

  /** A fresh run leaves out only commits without a message. */
  ghost predicate LosesNothing(epochs: seq<EpochRepo>, g: nat) {
    forall i :: 0 <= i < |epochs| ==> LosesNothingIn(epochs[i].walk, g + Offset(epochs, i))
  }

  ghost predicate LosesNothingIn(walk: seq<Commit>, g: nat) {
    forall j :: |walk| - Dropped(|walk|, g) <= j < |walk| ==> walk[j].mail.None?
  }

  /** Completeness, exactly: a fresh run archives every message of every epoch if and only if the
      commits it leaves out have none. */
  lemma {:induction false} FreshRunCompleteIff(epochs: seq<EpochRepo>, g: nat)
    ensures FreshEmails(epochs, g) == CompleteEmails(epochs, g) <==> LosesNothing(epochs, g)
    ensures |FreshEmails(epochs, g)| <= |CompleteEmails(epochs, g)|
    ensures FreshEmails(epochs, g) != CompleteEmails(epochs, g) ==>
      |FreshEmails(epochs, g)| < |CompleteEmails(epochs, g)|
    decreases |epochs|
  {
    hide EmailsOf, LosesNothing, Dropped;
    LossOfRest(epochs, g);
    if epochs != [] {
      var walk, rest, name := epochs[0].walk, epochs[1..], epochs[0].name;
      var k, g' := |walk| - Dropped(|walk|, g), g + |walk|;
      FreshRunCompleteIff(rest, g');
      EmailsOfPrefix(walk, k, g, name);
      PrefixSums(EmailsOf(walk[..k], g, name), FreshEmails(rest, g'), EmailsOf(walk, g, name),
                 CompleteEmails(rest, g'));
    }
  }

  lemma PrefixSums(a: seq<EmailData>, b: seq<EmailData>, c: seq<EmailData>, d: seq<EmailData>)
    requires a <= c && |b| <= |d| && (b != d ==> |b| < |d|)
    ensures a + b == c + d <==> a == c && b == d
    ensures |a + b| <= |c + d| && (a + b != c + d ==> |a + b| < |c + d|)
  {
    if a + b == c + d {
      assert |a| == |c|;
      assert b == (a + b)[|a|..] && d == (c + d)[|c|..];
    }
  }

  lemma LossOfRest(epochs: seq<EpochRepo>, g: nat)
    ensures LosesNothing([], g)
    ensures epochs != [] ==>
      (LosesNothing(epochs, g)
       <==> LosesNothingIn(epochs[0].walk, g) && LosesNothing(epochs[1..], g + |epochs[0].walk|))
  {
    hide LosesNothingIn, Offset;
    if epochs != [] {
      var rest, g' := epochs[1..], g + |epochs[0].walk|;
      OffsetShift(epochs, 1);
      forall i | 0 <= i < |rest|
        ensures LosesNothingIn(rest[i].walk, g' + Offset(rest, i))
          <==> LosesNothingIn(epochs[i + 1].walk, g + Offset(epochs, i + 1))
      {
        OffsetShift(epochs, i + 1);
      }
      assert forall i :: 0 < i < |epochs| ==> epochs[i] == rest[i - 1];
    }
  }

  /** Where every commit has a message: if and only if no epoch is longer than the commits before it
      while those are two or more. */
  lemma ReadableCompleteIff(epochs: seq<EpochRepo>, g: nat)
    requires AllReadable(epochs)
    ensures FreshEmails(epochs, g) == CompleteEmails(epochs, g) <==> GapFree(epochs, g)
  {
    hide FreshEmails, CompleteEmails, Offset;
    FreshRunCompleteIff(epochs, g);
    forall i | 0 <= i < |epochs|
      ensures HasGap(epochs, i, g) <==> !LosesNothingIn(epochs[i].walk, g + Offset(epochs, i))
    {
      var walk := epochs[i].walk;
      if HasGap(epochs, i, g) {
        assert walk[|walk| - 1].mail.Some?;
      }
    }
  }

  /** The smallest inbox a fresh run does not archive completely: two commits, then three. */
  lemma TwoThenThreeIsIncomplete(a: EpochRepo, b: EpochRepo)
    requires |a.walk| == 2 && |b.walk| == 3 && AllReadable([a, b])
    ensures FreshEmails([a, b], 0) != CompleteEmails([a, b], 0)
  {
    ReadableCompleteIff([a, b], 0);
    OffsetShift([a, b], 1);
    OffsetShift([b], 1);
    assert [a, b][1..] == [b];
    assert HasGap([a, b], 1, 0);
  }

  // ----- numbering: sequential and random access name the same emails

  function NumbersOf(commits: seq<Commit>, g: nat): seq<nat> {
    if commits == [] then []
    else
      var older := NumbersOf(commits[..|commits| - 1], g);
      if Last(commits).mail.None? then older else older + [g + |commits|]
  }

  function FreshNumbers(epochs: seq<EpochRepo>, g: nat): seq<nat> {
    if epochs == [] then []
    else
      var walk := epochs[0].walk;
      NumbersOf(walk[..|walk| - Dropped(|walk|, g)], g) + FreshNumbers(epochs[1..], g + |walk|)
  }

  function EmailOf(n: nat, entry: (string, Commit)): EmailData
    requires entry.1.mail.Some?
  {
    EmailData(EmailId.Format(n, entry.0, entry.1.sha), entry.1.mail.value)
  }

  /** The numbers rise strictly within (low, high], and email `j` is the commit its number names. */
  ghost predicate Numbered(emails: seq<EmailData>, ns: seq<nat>, all: seq<(string, Commit)>, low: nat, high: nat) {
    && |emails| == |ns| && high == low + |all|
    && (forall j :: 0 <= j < |ns| ==> low < ns[j] <= high)
    && (forall i, j :: 0 <= i < j < |ns| ==> ns[i] < ns[j])
    && (forall j :: 0 <= j < |ns| ==>
          all[ns[j] - 1 - low].1.mail.Some? && emails[j] == EmailOf(ns[j], all[ns[j] - 1 - low]))
  }

  function Labelled(name: string, walk: seq<Commit>): (r: seq<(string, Commit)>)
    ensures |r| == |walk| && forall i :: 0 <= i < |walk| ==> r[i] == (name, walk[i])
  {
    seq(|walk|, i requires 0 <= i < |walk| => (name, walk[i]))
  }

  /** Leaving out commits at the end of a walk does not disturb the numbering of the others. */
  lemma NumberedWithin(emails: seq<EmailData>, ns: seq<nat>, all: seq<(string, Commit)>, more: seq<(string, Commit)>,
                       low: nat)
    requires Numbered(emails, ns, all, low, low + |all|)
    ensures Numbered(emails, ns, all + more, low, low + |all| + |more|)
  {
    assert forall j :: 0 <= j < |ns| ==> (all + more)[ns[j] - 1 - low] == all[ns[j] - 1 - low];
  }

  lemma NumberedConcat(e1: seq<EmailData>, n1: seq<nat>, a1: seq<(string, Commit)>,
                       e2: seq<EmailData>, n2: seq<nat>, a2: seq<(string, Commit)>, low: nat)
    requires Numbered(e1, n1, a1, low, low + |a1|) && Numbered(e2, n2, a2, low + |a1|, low + |a1| + |a2|)
    ensures Numbered(e1 + e2, n1 + n2, a1 + a2, low, low + |a1| + |a2|)
  {
    hide EmailId.Format;
    forall j | 0 <= j < |n1 + n2|
      ensures low < (n1 + n2)[j] <= low + |a1| + |a2|
      ensures (a1 + a2)[(n1 + n2)[j] - 1 - low].1.mail.Some?
      ensures (e1 + e2)[j] == EmailOf((n1 + n2)[j], (a1 + a2)[(n1 + n2)[j] - 1 - low])
    {
      if j < |n1| {
        assert (a1 + a2)[n1[j] - 1 - low] == a1[n1[j] - 1 - low];
      } else {
        assert (a1 + a2)[n2[j - |n1|] - 1 - low] == a2[n2[j - |n1|] - 1 - (low + |a1|)];
      }
    }
  }

  lemma OneNumbered(entry: (string, Commit), low: nat)
    ensures entry.1.mail.Some? ==> Numbered([EmailOf(low + 1, entry)], [low + 1], [entry], low, low + 1)
    ensures entry.1.mail.None? ==> Numbered([], [], [entry], low, low + 1)
  {
    hide EmailOf;
  }

  lemma {:induction false} EpochNumbered(commits: seq<Commit>, g: nat, name: string)
    ensures Numbered(EmailsOf(commits, g, name), NumbersOf(commits, g), Labelled(name, commits), g, g + |commits|)
  {
    hide EmailId.Format, Numbered, Labelled;
    if commits == [] {
      NothingNumbered(g);
      assert Labelled(name, commits) == [];
    } else {
      var older, c, k := commits[..|commits| - 1], Last(commits), |commits| - 1;
      EpochNumbered(older, g, name);
      OneNumbered((name, c), g + k);
      assert Labelled(name, commits) == Labelled(name, older) + [(name, c)];
      var email := if c.mail.Some? then [EmailOf(g + k + 1, (name, c))] else [];
      var number := if c.mail.Some? then [g + k + 1] else [];
      assert EmailsOf(commits, g, name) == EmailsOf(older, g, name) + email;
      assert NumbersOf(commits, g) == NumbersOf(older, g) + number;
      NumberedConcat(EmailsOf(older, g, name), NumbersOf(older, g), Labelled(name, older), email, number,
                     [(name, c)], g);
    }
  }

  /** On a fresh run the email numbered `k` comes from element `k - 1` of the concatenated walks, and
      no number is used twice, across all epochs. */
  lemma {:induction false} FreshRunIsNumbered(epochs: seq<EpochRepo>, g: nat)
    ensures Numbered(FreshEmails(epochs, g), FreshNumbers(epochs, g), AllCommits(epochs), g, g + Total(epochs))
    decreases |epochs|
  {
    hide EmailsOf, NumbersOf, EmailId.Format, Numbered;
    if epochs == [] {
      NothingNumbered(g);
    } else {
      var walk, name, rest := epochs[0].walk, epochs[0].name, epochs[1..];
      var kept := walk[..|walk| - Dropped(|walk|, g)];
      KeptIsNumbered(walk, |kept|, g, name);
      FreshRunIsNumbered(rest, g + |walk|);
      TotalIsLength(rest);
      NumberedConcat(EmailsOf(kept, g, name), NumbersOf(kept, g), Labelled(name, walk),
                     FreshEmails(rest, g + |walk|), FreshNumbers(rest, g + |walk|), AllCommits(rest), g);
      assert AllCommits(epochs) == Labelled(name, walk) + AllCommits(rest);
    }
  }

  lemma KeptIsNumbered(walk: seq<Commit>, k: nat, g: nat, name: string)
    requires k <= |walk|
    ensures Numbered(EmailsOf(walk[..k], g, name), NumbersOf(walk[..k], g), Labelled(name, walk), g, g + |walk|)
  {
    hide EmailsOf, NumbersOf, Numbered;
    EpochNumbered(walk[..k], g, name);
    NumberedWithin(EmailsOf(walk[..k], g, name), NumbersOf(walk[..k], g), Labelled(name, walk[..k]),
                   Labelled(name, walk[k..]), g);
    assert Labelled(name, walk[..k]) + Labelled(name, walk[k..]) == Labelled(name, walk);
  }

  lemma NothingNumbered(g: nat)
    ensures Numbered([], [], [], g, g)
  {
  }

  lemma {:induction false} TotalIsLength(epochs: seq<EpochRepo>)
    ensures |AllCommits(epochs)| == Total(epochs)
  {
    if epochs != [] {
      TotalIsLength(epochs[1..]);
    }
  }

  /** The text without its line ends: line feeds, and carriage returns right before one. */
  function WithoutLineEnds(s: string): string {
    if s == "" then ""
    else if s[0] == '\n' || (s[0] == '\r' && |s| > 1 && s[1] == '\n') then WithoutLineEnds(s[1..])
    else [s[0]] + WithoutLineEnds(s[1..])
  }

  lemma {:induction false} FirstLine(line: string, rest: string)
    requires '\n' !in line
    ensures WithoutLineEnds(line + "\n" + rest)
         == (if line != "" && Last(line) == '\r' then line[..|line| - 1] else line) + WithoutLineEnds(rest)
  {
    var s := line + "\n" + rest;
    if line == "" {
      assert s[1..] == rest;
    } else {
      assert s[1..] == line[1..] + "\n" + rest;
      FirstLine(line[1..], rest);
      assert |line| > 1 ==> s[1] == line[1] && line[1] in line;
      assert |line| > 1 && Last(line) == '\r' ==> line[..|line| - 1] == [line[0]] + line[1..][..|line[1..]| - 1];
      assert s[0] == line[0] && line[0] in line && line == [line[0]] + line[1..];
    }
  }

  lemma {:induction false} OneLine(s: string)
    requires '\n' !in s
    ensures WithoutLineEnds(s) == s
  {
    if s != "" {
      OneLine(s[1..]);
      assert s == [s[0]] + s[1..] && (|s| > 1 ==> s[1] in s);
    }
  }

  /** Reading an email line by line keeps all of its text but the line ends. */
  lemma {:induction false} OnlyLineEndsAreLost(s: string)
    ensures Flatten(TextLines(s)) == WithoutLineEnds(s)
    decreases |s|
  {
    hide WithoutLineEnds;
    var r := Text.Find(s, "\n");
    Text.OneCharSeparator(s, '\n');
    assert s + "\n"[..0] == s;
    if s == "" {
      OneLine(s);
    } else if r.Some? {
      var i := r.value;
      FeedAt(s, i);
      NoFeedBefore(s, i);
      FirstLine(s[..i], s[i + 1..]);
      OnlyLineEndsAreLost(s[i + 1..]);
      assert i > 0 ==> Last(s[..i]) == s[i - 1] && s[..i][..i - 1] == s[..i - 1];
      assert TextLines(s)[1..] == TextLines(s[i + 1..]);
    } else {
      assert TextLines(s) == [s];
      FlattenOne(s);
      CharIsContained(s);
      OneLine(s);
    }
  }

  lemma FeedAt(s: string, i: nat)
    requires Text.Find(s, "\n") == Some(i)
    ensures i < |s| && s == s[..i] + "\n" + s[i + 1..]
  {
    assert s[i..i + 1] == "\n";
    assert s[i] == s[i..i + 1][0];
  }

  lemma NoFeedBefore(s: string, i: nat)
    requires Text.Find(s, "\n") == Some(i)
    ensures i <= |s| && '\n' !in s[..i]
  {
    forall j | 0 <= j < i ensures s[..i][j] != '\n' {
      if s[j] == '\n' {
        assert s[j..j + 1] == "\n";
        assert Text.MatchesAt(s, "\n", j);
      }
    }
  }

  lemma {:induction false} LineEndsCount(s: string)
    ensures |WithoutLineEnds(s)| <= |s|
    ensures |WithoutLineEnds(s)| == |s| <==> '\n' !in s
  {
    if s != "" {
      LineEndsCount(s[1..]);
      assert s == [s[0]] + s[1..];
      assert |s| > 1 && s[1] == '\n' ==> s[1..][0] in s[1..];
    }
  }

  /** The text read at random equals the one archived in sequence exactly when it has no line end. */
  lemma LineEndsAreLost(s: string)
    ensures Flatten(TextLines(s)) == s <==> '\n' !in s
    ensures |Flatten(TextLines(s))| <= |s|
  {
    hide TextLines;
    OnlyLineEndsAreLost(s);
    LineEndsCount(s);
    if '\n' !in s {
      OneLine(s);
    }
  }

  /** Sequential and random access agree: asking for the number of an archived email selects the
      same commit and gives it the same identifier; of the text only the line ends are missing. */
  lemma RandomAccessAgrees(epochs: seq<EpochRepo>, j: nat)
    requires j < |FreshNumbers(epochs, 0)|
    ensures var emails, k := FreshEmails(epochs, 0), FreshNumbers(epochs, 0)[j];
      && j < |emails|
      && Selected(epochs, k) == (Archived, [EmailData(emails[j].emailId, WithoutLineEnds(emails[j].content))])
  {
    hide EmailId.Format, TextLines, WithoutLineEnds;
    FreshRunIsNumbered(epochs, 0);
    TotalIsLength(epochs);
    OnlyLineEndsAreLost(FreshEmails(epochs, 0)[j].content);
  }

  /** Whatever is asked for: commit `index` of the whole inbox, first epoch first, newest first, when
      there is one and it has a message. */
  lemma {:induction false} SelectedByPlace(epochs: seq<EpochRepo>, i: nat, j: nat)
    requires i < |epochs| && j < |epochs[i].walk|
    ensures var c, k := epochs[i].walk[j], Total(epochs[..i]) + j + 1;
      Selected(epochs, k) ==
        if c.mail.None? then (NoMessage, [])
        else (Archived, [EmailData(EmailId.Format(k, epochs[i].name, c.sha), WithoutLineEnds(c.mail.value))])
    ensures Selected(epochs, 0) == (IndexZero, [])
    ensures forall k: nat :: k > Total(epochs) ==> Selected(epochs, k) == (OutOfRange, [])
  {
    hide EmailId.Format, TextLines, WithoutLineEnds, AllCommits;
    EntryByPlace(epochs, i, j);
    TotalIsLength(epochs);
    if epochs[i].walk[j].mail.Some? {
      OnlyLineEndsAreLost(epochs[i].walk[j].mail.value);
    }
  }

  lemma {:induction false} EntryByPlace(epochs: seq<EpochRepo>, i: nat, j: nat)
    requires i < |epochs| && j < |epochs[i].walk|
    ensures Total(epochs[..i]) + j < |AllCommits(epochs)|
    ensures AllCommits(epochs)[Total(epochs[..i]) + j] == (epochs[i].name, epochs[i].walk[j])
  {
    hide AllCommits;
    AllCommitsSplit(epochs);
    var n := |epochs[0].walk|;
    if i > 0 {
      EntryByPlace(epochs[1..], i - 1, j);
      OffsetShift(epochs, i);
      var before := Total(epochs[1..][..i - 1]);
      assert AllCommits(epochs)[n..][before + j] == AllCommits(epochs)[n + before + j];
    }
  }

  lemma CharIsContained(s: string)
    ensures '\n' in s ==> Text.Contains(s, "\n")
  {
    forall i | 0 <= i < |s| && s[i] == '\n' ensures Text.MatchesAt(s, "\n", i) {
      assert s[i..i + 1] == "\n";
    }
  }

  /** Without epochs the two paths name the one repository differently, so their ids never agree. */
  lemma FallbackIdsDiffer(inbox: Inbox, k: nat, sha: string)
    requires k <= Decimal.USIZE_MAX
    ensures inbox.epochs == [] ==>
      && EpochsToUse(inbox, FALLBACK_LABEL) == [inbox.bare.(name := "1")]
      && EpochsToUse(inbox, V1_LABEL) == [inbox.bare.(name := "all")]
    ensures EmailId.Format(k, FALLBACK_LABEL, sha) != EmailId.Format(k, V1_LABEL, sha)
  {
    if EmailId.Format(k, FALLBACK_LABEL, sha) == EmailId.Format(k, V1_LABEL, sha) {
      EmailId.FormatInjective(k, FALLBACK_LABEL, sha, k, V1_LABEL, sha);
    }
  }
}
