/** The NNTP worker: one session over a group, and the archive after any number of sessions. */
module Nntp {
  import opened Prelude
  import opened EmailStore
  import opened ProgressFile
  import opened Shutdown
  import Decimal
  import AW = ArchiveWriter
  import ATP = ArchiveThenParse
  import EmailReader

  // ----- the connection

  /** Failed stands for every error other than "no such article". */
  datatype Reply = Article(lines: seq<string>) | Unavailable | Failed

  /** Article numbers a server has, with their text; availability does not change over time. */
  type Articles = map<nat, seq<string>>

  class NntpStream {
    const articles: Articles
    const low: nat
    const high: nat
    /** Which of the coming requests fail; requests beyond the script succeed. */
    var faults: seq<bool>

    constructor (articles: Articles, low: nat, high: nat, faults: seq<bool>)
      ensures this.articles == articles && this.low == low && this.high == high && this.faults == faults
    {
      this.articles, this.low, this.high, this.faults := articles, low, high, faults;
    }

    method NextFails() returns (fails: bool)
      modifies this
      ensures fails <==> old(faults) != [] && old(faults)[0]
      ensures faults == Skip(old(faults), 1)
    {
      fails := faults != [] && faults[0];
      faults := Skip(faults, 1);
    }

    method Group() returns (marks: Option<(nat, nat)>)
      modifies this
      ensures marks == if old(faults) != [] && old(faults)[0] then None else Some((low, high))
      ensures faults == Skip(old(faults), 1)
    {
      var fails := NextFails();
      marks := if fails then None else Some((low, high));
    }

    method RawArticleByNumber(n: nat) returns (reply: Reply)
      modifies this
      ensures reply == if old(faults) != [] && old(faults)[0] then Failed else Lookup(articles, n)
      ensures faults == Skip(old(faults), 1)
    {
      var fails := NextFails();
      reply := if fails then Failed else Lookup(articles, n);
    }
  }

  function Lookup(articles: Articles, n: nat): Reply {
    if n in articles then Article(articles[n]) else Unavailable
  }

  function Skip(faults: seq<bool>, n: nat): seq<bool> {
    if n < |faults| then faults[n..] else []
  }

  /** How many requests fail before the next one that succeeds. */
  function FailuresAhead(faults: seq<bool>): nat {
    if faults == [] || !faults[0] then 0 else 1 + FailuresAhead(faults[1..])
  }

  const MAX_RETRIES: nat := 3

  /** Fetches one article. It gives up exactly when the first attempt and all retries fail;
      otherwise the answer is the server's, and nothing more is requested. */
  method GetRawArticleRetryable(stream: NntpStream, n: nat, maxRetries: nat) returns (reply: Reply)
    modifies stream
    ensures FailuresAhead(old(stream.faults)) > maxRetries ==>
      reply == Failed && stream.faults == Skip(old(stream.faults), maxRetries + 1)
    ensures FailuresAhead(old(stream.faults)) <= maxRetries ==>
      reply == Lookup(stream.articles, n)
        && stream.faults == Skip(old(stream.faults), FailuresAhead(old(stream.faults)) + 1)
  {
    var attempts := 0;
    while true
      invariant attempts <= maxRetries
      invariant stream.faults == Skip(old(stream.faults), attempts)
      invariant FailuresAhead(old(stream.faults)) == attempts + FailuresAhead(stream.faults)
      decreases maxRetries - attempts
    {
      reply := stream.RawArticleByNumber(n);
      if reply != Failed {
        return;
      }
      attempts := attempts + 1;
      if attempts > maxRetries {
        return;
      }
    }
  }

  // ----- one session

  /** The available articles in [from, to), in order, as they are archived. */
  function Fetched(articles: Articles, from: nat, to: nat): seq<EmailData> {
    if to <= from then []
    else if to - 1 !in articles then Fetched(articles, from, to - 1)
    else Fetched(articles, from, to - 1) + [EmailData(Decimal.Render(to - 1), Flatten(articles[to - 1]))]
  }

  const UNAVAILABLE := "article unavailable"

  /** The error log entries of the other numbers in [from, to). */
  function Missing(articles: Articles, from: nat, to: nat): seq<(string, string)> {
    if to <= from then []
    else if to - 1 in articles then Missing(articles, from, to - 1)
    else Missing(articles, from, to - 1) + [(Decimal.Render(to - 1), UNAVAILABLE)]
  }

  /** The first number at which the session stops: the flag is up, or all attempts fail. */
  function StopAt(n: nat, high: nat, faults: seq<bool>, polls: Option<nat>): nat
    decreases high + 1 - n
  {
    if n > high || polls == Some(0) || FailuresAhead(faults) > MAX_RETRIES then n
    else StopAt(n + 1, high, Skip(faults, FailuresAhead(faults) + 1), AfterPolls(polls, 1))
  }

  /** A session without shutdown or a run of failures reaches the high mark. */
  lemma {:induction false} UndisturbedReachesHigh(n: nat, high: nat)
    ensures StopAt(n, high, [], None) == Max(n, high + 1)
    decreases high + 1 - n
  {
    if n <= high {
      UndisturbedReachesHigh(n + 1, high);
    }
  }

  /** Four requests in a row that fail. */
  ghost predicate FourFail(faults: seq<bool>, i: nat) {
    i + 4 <= |faults| && faults[i] && faults[i + 1] && faults[i + 2] && faults[i + 3]
  }

  lemma {:induction false} FailuresInARow(faults: seq<bool>, k: nat)
    requires k <= FailuresAhead(faults)
    ensures k <= |faults| && forall i :: 0 <= i < k ==> faults[i]
  {
    if k > 0 {
      FailuresInARow(faults[1..], k - 1);
      assert forall i :: 0 < i < k ==> faults[i] == faults[1..][i - 1];
    }
  }

  lemma AtOnce(faults: seq<bool>)
    ensures FailuresAhead(faults) > MAX_RETRIES ==> FourFail(faults, 0)
  {
    if FailuresAhead(faults) > MAX_RETRIES {
      FailuresInARow(faults, 4);
    }
  }

  lemma FourFailLater(faults: seq<bool>, k: nat, i: nat)
    ensures FourFail(Skip(faults, k), i) ==> FourFail(faults, i + k)
  {
  }

  /** Single faults are outlived: a session gets past the high mark, unless the flag stops it or one
      article is asked for four times in vain. */
  lemma {:induction false} StopsForFourFailures(n: nat, high: nat, faults: seq<bool>, polls: Option<nat>)
    returns (i: nat)
    ensures n <= StopAt(n, high, faults, polls) <= Max(n, high + 1)
    ensures var stop := StopAt(n, high, faults, polls);
      stop <= high && AfterPolls(polls, stop - n) != Some(0) ==> FourFail(faults, i)
    decreases high + 1 - n
  {
    hide FourFail, FailuresAhead, Skip;
    i := 0;
    if n <= high && polls != Some(0) {
      if FailuresAhead(faults) > MAX_RETRIES {
        AtOnce(faults);
      } else {
        var k := FailuresAhead(faults) + 1;
        i := StopsForFourFailures(n + 1, high, Skip(faults, k), AfterPolls(polls, 1));
        FourFailLater(faults, k, i);
        i := i + k;
      }
    }
  }

  /** Exactly so: four failures stop it at once, three do not. */
  lemma FourthFailureDecides(n: nat, high: nat, rest: seq<bool>, polls: Option<nat>)
    requires n <= high && polls != Some(0)
    ensures StopAt(n, high, [true, true, true, true] + rest, polls) == n
    ensures StopAt(n, high, [true, true, true, false] + rest, polls)
         == StopAt(n + 1, high, rest, AfterPolls(polls, 1))
    ensures StopAt(n, high, [false] + rest, polls) == StopAt(n + 1, high, rest, AfterPolls(polls, 1))
  {
    FailuresOf(rest);
    assert ([true, true, true, false] + rest)[4..] == rest && ([false] + rest)[1..] == rest;
  }

  lemma OneFailure(rest: seq<bool>)
    ensures FailuresAhead([true] + rest) == 1 + FailuresAhead(rest)
  {
    assert ([true] + rest)[1..] == rest;
  }

  lemma FailuresOf(rest: seq<bool>)
    ensures FailuresAhead([true, true, true, true] + rest) >= 4
    ensures FailuresAhead([true, true, true, false] + rest) == 3
    ensures FailuresAhead([false] + rest) == 0
  {
    hide FailuresAhead;
    assert [true] + ([true] + ([true] + ([true] + rest))) == [true, true, true, true] + rest;
    assert [true] + ([true] + ([true] + ([false] + rest))) == [true, true, true, false] + rest;
    OneFailure([true] + ([true] + ([true] + rest)));
    OneFailure([true] + ([true] + rest));
    OneFailure([true] + rest);
    OneFailure(rest);
    OneFailure([true] + ([true] + ([false] + rest)));
    OneFailure([true] + ([false] + rest));
    OneFailure([false] + rest);
    NoFailure(rest);
  }

  lemma NoFailure(rest: seq<bool>)
    ensures FailuresAhead([false] + rest) == 0
  {
  }

  /** Without faults the flag alone decides: one number a poll. */
  lemma {:induction false} FlagStops(n: nat, high: nat, k: nat)
    ensures StopAt(n, high, [], Some(k)) == Min(n + k, Max(n, high + 1))
    decreases high + 1 - n
  {
    if n <= high && k > 0 {
      FlagStops(n + 1, high, k - 1);
    }
  }

  /** Every number that was come to is accounted for: archived when there is such an article, logged
      when there is none, once. */
  lemma {:induction false} FetchedOrMissing(articles: Articles, from: nat, past: nat, n: nat)
    requires from <= past
    ensures |Fetched(articles, from, past)| + |Missing(articles, from, past)| == past - from
    ensures (Decimal.Render(n), "article unavailable") in Missing(articles, from, past)
            <==> from <= n < past && n !in articles
  {
    hide Decimal.Render;
    if from < past {
      FetchedOrMissing(articles, from, past - 1, n);
      Decimal.ValueOfRender(n);
      Decimal.ValueOfRender(past - 1);
    }
  }

  /** One number: its article is archived, or its absence logged, unless all attempts fail. */
  method ReadOne(stream: NntpStream, writer: AW.ArchiveWriter, ghost low: nat, n: nat) returns (reply: Reply)
    requires writer.Valid() && stream !in writer.Repr && low <= n
    modifies stream, writer.Repr
    ensures writer.Valid()
    ensures reply == Failed <==> FailuresAhead(old(stream.faults)) > MAX_RETRIES
    ensures reply != Failed ==> reply == Lookup(stream.articles, n)
    ensures reply != Failed ==> stream.faults == Skip(old(stream.faults), FailuresAhead(old(stream.faults)) + 1)
    ensures var to := if reply == Failed then n else n + 1;
      && (forall before :: old(writer.archived) == before + Fetched(stream.articles, low, n) ==>
        writer.archived == before + Fetched(stream.articles, low, to))
      && (forall before :: old(writer.dir.errors) == before + Missing(stream.articles, low, n) ==>
        writer.dir.errors == before + Missing(stream.articles, low, to))
  {
    hide AW.ArchiveWriter.Valid, AW.ArchiveWriter.StoreValid, Decimal.Render;
    reply := GetRawArticleRetryable(stream, n, MAX_RETRIES);
    match reply {
      case Article(lines) =>
        writer.ArchiveEmail(Decimal.Render(n), lines);
      case Unavailable =>
        writer.LogError(Decimal.Render(n), UNAVAILABLE);
      case Failed =>
    }
  }

  /** Walks the article numbers in order, archiving what is available and logging what is not. */
  method ReadNewMails(stream: NntpStream, flag: ShutdownFlag, writer: AW.ArchiveWriter, low: nat, high: nat)
    returns (count: Result<nat, ()>, ghost stop: nat)
    requires writer.Valid() && stream !in writer.Repr && flag !in writer.Repr
    modifies stream, flag, writer.Repr
    ensures writer.Valid()
    ensures stop == StopAt(low, high, old(stream.faults), old(flag.pollsLeft))
    ensures low <= stop <= Max(low, high + 1)
    ensures writer.archived == old(writer.archived) + Fetched(stream.articles, low, stop)
    ensures writer.dir.errors == old(writer.dir.errors) + Missing(stream.articles, low, stop)
    ensures count.Ok? ==> count.value == |Fetched(stream.articles, low, stop)|
    ensures count.Err? <==> stop <= high && AfterPolls(old(flag.pollsLeft), stop - low) != Some(0)
  {
    hide AW.ArchiveWriter.Valid, AW.ArchiveWriter.StoreValid, Decimal.Render, FailuresAhead, Skip;
    var numEmailsRead := 0;
    var current := low;
    while current <= high
      invariant low <= current <= Max(low, high + 1)
      invariant writer.Valid()
      invariant flag.pollsLeft == AfterPolls(old(flag.pollsLeft), current - low)
      invariant StopAt(current, high, stream.faults, flag.pollsLeft)
        == StopAt(low, high, old(stream.faults), old(flag.pollsLeft))
      invariant writer.archived == old(writer.archived) + Fetched(stream.articles, low, current)
      invariant writer.dir.errors == old(writer.dir.errors) + Missing(stream.articles, low, current)
      invariant numEmailsRead == |Fetched(stream.articles, low, current)|
    {
      var raised := flag.IsRequested();
      if raised {
        return Ok(numEmailsRead), current;
      }
      var reply := ReadOne(stream, writer, low, current);
      if reply == Failed {
        return Err(()), current;
      }
      if reply.Article? {
        numEmailsRead := numEmailsRead + 1;
      }
      current := current + 1;
    }
    return Ok(numEmailsRead), current;
  }

  // ----- the archive after any number of sessions

  /** One visit to the group: the marks the server announced, and the first number not asked for. */
  datatype Session = Session(low: nat, high: nat, stop: nat)

  /** The numbers archived so far, in order, and the stored progress (0 for none). */
  datatype Archive = Archive(log: seq<nat>, last: nat)

  /** A session resumes at the last archived article itself, not after it. */
  function Start(last: nat, s: Session): nat {
    Max(last, s.low)
  }

  /** Sessions stop anywhere between their start and one past the high mark. */
  predicate Possible(last: nat, s: Session) {
    Start(last, s) <= s.stop <= Max(Start(last, s), s.high + 1)
  }

  /** The available numbers in [from, to). */
  function Between(available: set<nat>, from: nat, to: nat): (ns: seq<nat>)
    ensures forall i :: 0 <= i < |ns| ==> from <= ns[i] < to && ns[i] in available
    ensures forall i, j :: 0 <= i < j < |ns| ==> ns[i] < ns[j]
    ensures forall n :: from <= n < to && n in available ==> n in ns
  {
    if to <= from then []
    else if to - 1 !in available then Between(available, from, to - 1)
    else Between(available, from, to - 1) + [to - 1]
  }

  /** Nothing is read unless the high mark is above the stored progress. */
  function Reads(available: set<nat>, last: nat, s: Session): seq<nat> {
    if last < s.high then Between(available, Start(last, s), s.stop) else []
  }

  function Step(available: set<nat>, a: Archive, s: Session): Archive {
    var read := Reads(available, a.last, s);
    Archive(a.log + read, if read == [] then a.last else Last(read))
  }

  function After(available: set<nat>, sessions: seq<Session>): Archive {
    if sessions == [] then Archive([], 0)
    else Step(available, After(available, sessions[..|sessions| - 1]), Last(sessions))
  }

  /** Each session could happen after the ones before it, and no server ever had an article below
      the low mark it announced. */
  ghost predicate History(available: set<nat>, sessions: seq<Session>) {
    sessions == [] ||
    var older := sessions[..|sessions| - 1];
    && History(available, older)
    && Possible(After(available, older).last, Last(sessions))
    && (forall n :: n in available ==> Last(sessions).low <= n)
  }

  function Count(ns: seq<nat>, n: nat): nat {
    if ns == [] then 0 else Count(ns[..|ns| - 1], n) + if Last(ns) == n then 1 else 0
  }

  /** Whether the session fetches again the article it resumed at. */
  predicate ReReads(available: set<nat>, last: nat, s: Session, n: nat) {
    n in available && n == last == Start(last, s) && last < s.high && last < s.stop
  }

  /** How many sessions of a history resumed at article `n` and fetched it again. */
  function Resumptions(available: set<nat>, sessions: seq<Session>, n: nat): nat {
    if sessions == [] then 0
    else
      var older := sessions[..|sessions| - 1];
      Resumptions(available, older, n)
      + if ReReads(available, After(available, older).last, Last(sessions), n) then 1 else 0
  }

  lemma {:induction false} CountConcat(a: seq<nat>, b: seq<nat>, n: nat)
    ensures Count(a + b, n) == Count(a, n) + Count(b, n)
  {
    if b == [] {
      assert a + b == a;
    } else {
      assert (a + b)[..|a + b| - 1] == a + b[..|b| - 1];
      CountConcat(a, b[..|b| - 1], n);
    }
  }

  lemma CountPush(ns: seq<nat>, x: nat, n: nat)
    ensures Count([], n) == 0
    ensures Count(ns + [x], n) == Count(ns, n) + if x == n then 1 else 0
  {
    assert (ns + [x])[..|ns|] == ns;
  }

  lemma BetweenStep(available: set<nat>, from: nat, past: nat)
    ensures past <= from ==> Between(available, from, past) == []
    ensures from < past ==>
      Between(available, from, past)
      == Between(available, from, past - 1) + if past - 1 in available then [past - 1] else []
  {
  }

  lemma {:induction false} CountBetween(available: set<nat>, from: nat, past: nat, n: nat)
    ensures Count(Between(available, from, past), n) == (if from <= n < past && n in available then 1 else 0)
  {
    hide Count, Between;
    BetweenStep(available, from, past);
    CountPush([], 0, n);
    if from < past {
      var older := Between(available, from, past - 1);
      CountBetween(available, from, past - 1, n);
      CountPush(older, past - 1, n);
      assert older + [] == older;
    }
  }

  lemma {:induction false} CountMembers(ns: seq<nat>, n: nat)
    ensures n in ns <==> Count(ns, n) > 0
  {
    if ns != [] {
      CountMembers(ns[..|ns| - 1], n);
      assert ns == ns[..|ns| - 1] + [Last(ns)];
    }
  }

  /** The accounting for one article over a whole history: archived once if it is available and at
      most the stored progress, and once more for each session that resumed exactly at it. */
  lemma {:induction false} ArchivedExactly(available: set<nat>, sessions: seq<Session>, n: nat)
    requires History(available, sessions) && 0 !in available
    ensures var a := After(available, sessions);
      && (a.last == 0 || a.last in available)
      && Count(a.log, n) == (if n in available && n <= a.last then 1 else 0) + Resumptions(available, sessions, n)
  {
    hide Count, Step;
    if sessions == [] {
      NothingCounted(n);
    } else {
      var older, s := sessions[..|sessions| - 1], Last(sessions);
      ArchivedExactly(available, older, n);
      ArchivedStep(available, After(available, older), s, n);
    }
  }

  lemma NothingCounted(n: nat)
    ensures Count([], n) == 0
  {
  }

  /** One session adds the articles beyond the stored progress once, and the one it resumed at again. */
  lemma ArchivedStep(available: set<nat>, a: Archive, s: Session, n: nat)
    requires (a.last == 0 || a.last in available) && 0 !in available
    requires Possible(a.last, s) && forall k :: k in available ==> s.low <= k
    ensures var b := Step(available, a, s);
      && (b.last == 0 || b.last in available)
      && Count(b.log, n) + (if n in available && n <= a.last then 1 else 0)
           == Count(a.log, n) + (if n in available && n <= b.last then 1 else 0)
              + if ReReads(available, a.last, s, n) then 1 else 0
  {
    hide Count, Between;
    var read := Reads(available, a.last, s);
    CountConcat(a.log, read, n);
    NothingCounted(n);
    if a.last < s.high {
      CountBetween(available, Start(a.last, s), s.stop, n);
    }
    if read != [] {
      assert Last(read) in available && Start(a.last, s) <= Last(read) < s.stop;
      assert n in read ==> n <= Last(read);
    }
  }

  /** Resume safety: wherever the sessions of a history stopped, every available article up to the
      stored progress is archived, and nothing that is unavailable or beyond it is. */
  lemma {:induction false} ResumeIsSafe(available: set<nat>, sessions: seq<Session>, n: nat)
    requires History(available, sessions) && 0 !in available
    ensures var a := After(available, sessions);
      n in a.log <==> n in available && n <= a.last
  {
    ArchivedExactly(available, sessions, n);
    CountMembers(After(available, sessions).log, n);
    OnlyArchivedIsReRead(available, sessions, n);
  }

  lemma {:induction false} OnlyArchivedIsReRead(available: set<nat>, sessions: seq<Session>, n: nat)
    requires History(available, sessions) && 0 !in available
    ensures Resumptions(available, sessions, n) > 0 ==> n in available && n <= After(available, sessions).last
  {
    if sessions != [] {
      var older, s := sessions[..|sessions| - 1], Last(sessions);
      OnlyArchivedIsReRead(available, older, n);
      var a := After(available, older);
      var read := Reads(available, a.last, s);
      if read != [] {
        assert Start(a.last, s) <= Last(read);
      }
    }
  }

  /** A session that was not cut short leaves every available article up to its high mark archived. */
  lemma CompleteSession(available: set<nat>, sessions: seq<Session>, n: nat)
    requires History(available, sessions) && 0 !in available && sessions != []
    requires Last(sessions).stop == Max(Start(After(available, sessions[..|sessions| - 1]).last, Last(sessions)),
                                        Last(sessions).high + 1)
    requires n in available && n <= Last(sessions).high
    ensures n in After(available, sessions).log
  {
    var older, s := sessions[..|sessions| - 1], Last(sessions);
    var a := After(available, older);
    ResumeIsSafe(available, older, n);
    if n > a.last {
      assert n in Between(available, Start(a.last, s), s.stop);
    }
  }

  // ----- a whole session against the disk

  /** The resume point: nothing stored means 0, and the stored identifier must be a number. */
  function LastArticle(yaml: Yaml, progress: Option<string>): Option<nat> {
    var id := LastProcessedId(yaml, progress);
    if id.None? then Some(0) else Decimal.ParseUsize(id.value)
  }

  datatype GroupResult = Collected(emails: nat) | NoNews | Errored | Panicked

  function SessionEmails(articles: Articles, last: nat, s: Session): seq<EmailData> {
    if last < s.high then Fetched(articles, Start(last, s), s.stop) else []
  }

  /** The first number a session does not ask for. */
  function SessionStop(last: nat, low: nat, high: nat, faults: seq<bool>, polls: Option<nat>): nat {
    var start := Max(last, low);
    if faults != [] && faults[0] then start
    else if last < high then StopAt(start, high, Skip(faults, 1), polls)
    else Max(start, high + 1)
  }

  /** How a session turns out; a group that cannot be opened is an error. */
  function SessionResult(last: nat, s: Session, reachable: bool, polls: Option<nat>, emails: nat): GroupResult {
    if !reachable then Errored
    else if last >= s.high then NoNews
    else if s.stop <= s.high && AfterPolls(polls, SaturatingSub(s.stop, Start(last, s))) != Some(0) then Errored
    else Collected(emails)
  }

  function SessionErrors(articles: Articles, last: nat, s: Session): seq<(string, string)> {
    if last < s.high then Missing(articles, Start(last, s), s.stop) else []
  }

  /** Reads the group once: from the stored progress or the low mark up to the high mark. */
  method HandleGroup(dir: Directory, mode: AW.WriteMode, yaml: Yaml, record: (string, nat) -> string,
                     stream: NntpStream, flag: ShutdownFlag)
    returns (result: GroupResult, ghost session: Session)
    modifies dir, stream, flag
    ensures session.low == stream.low && session.high == stream.high
    ensures result == Panicked <==> LastArticle(yaml, old(dir.progress)).None?
    ensures result == Panicked ==>
      AW.Stored(mode, yaml, record, [], old(dir.Snapshot()), dir.Snapshot()) && dir.errors == old(dir.errors)
    ensures result != Panicked ==>
      var last := LastArticle(yaml, old(dir.progress)).value;
      var emails := SessionEmails(stream.articles, last, session);
      var reachable := old(stream.faults) == [] || !old(stream.faults)[0];
      && session.stop == SessionStop(last, stream.low, stream.high, old(stream.faults), old(flag.pollsLeft))
      && Possible(last, session)
      && AW.Stored(mode, yaml, record, emails, old(dir.Snapshot()), dir.Snapshot())
      && dir.errors == old(dir.errors) + SessionErrors(stream.articles, last, session)
      && result == SessionResult(last, session, reachable, old(flag.pollsLeft), |emails|)
  {
    hide AW.Stored, AW.ArchiveWriter.Valid, AW.ArchiveWriter.StoreValid;
    var writer := new AW.ArchiveWriter(dir, mode, yaml, record);
    var id := writer.LastProcessedId();
    var parsed := if id.None? then Some(0) else Decimal.ParseUsize(id.value);
    session := Session(stream.low, stream.high, 0);
    if parsed.None? {
      writer.Drop();
      return Panicked, session;
    }
    var last := parsed.value;
    session := Session(stream.low, stream.high, Max(last, stream.low));
    assert SessionEmails(stream.articles, last, session) == [];
    assert SessionErrors(stream.articles, last, session) == [];
    hide Fetched, Missing, StopAt, FailuresAhead, AfterPolls;
    var marks := stream.Group();
    if marks.None? {
      result := Errored;
    } else if last < marks.value.1 {
      var count: Result<nat, ()>;
      ghost var stop;
      count, stop := ReadNewMails(stream, flag, writer, Max(last, marks.value.0), marks.value.1);
      session := Session(stream.low, stream.high, stop);
      result := if count.Ok? then Collected(count.value) else Errored;
    } else {
      session := Session(stream.low, stream.high, Max(Max(last, stream.low), stream.high + 1));
      result := NoNews;
    }
    assert writer.archived == SessionEmails(stream.articles, last, session);
    writer.Drop();
  }

  /** Left alone, a session gets past the high mark and reports what it collected, or no news. */
  lemma UndisturbedSession(last: nat, low: nat, high: nat, emails: nat)
    ensures var stop := SessionStop(last, low, high, [], None);
      && stop == Max(Max(last, low), high + 1)
      && SessionResult(last, Session(low, high, stop), true, None, emails)
           == if last >= high then NoNews else Collected(emails)
  {
    UndisturbedReachesHigh(Max(last, low), high);
  }

  /** A session that ends in an error could not open the group, or asked for an article four times in
      vain. */
  lemma ErrorsHaveReasons(last: nat, low: nat, high: nat, faults: seq<bool>, polls: Option<nat>, emails: nat)
    returns (i: nat)
    ensures var stop := SessionStop(last, low, high, faults, polls);
      SessionResult(last, Session(low, high, stop), faults == [] || !faults[0], polls, emails) == Errored ==>
        (faults != [] && faults[0]) || FourFail(faults, i)
  {
    i := 0;
    if last < high && (faults == [] || !faults[0]) {
      i := StopsForFourFailures(Max(last, low), high, Skip(faults, 1), polls);
      FourFailLater(faults, 1, i);
      i := i + 1;
    }
  }

  // ----- any number of sessions against the disk

  /** The identifier stored for a resume point; 0 means nothing was stored yet. */
  function IdOf(last: nat): Option<string> {
    if last == 0 then None else Some(Decimal.Render(last))
  }

  ghost function DecimalIds(): iset<string> {
    iset n: nat | n >= 0 :: Decimal.Render(n)
  }

  function RenderAll(ns: seq<nat>): (ids: seq<string>)
    ensures |ids| == |ns|
  {
    seq(|ns|, i requires 0 <= i < |ns| => Decimal.Render(ns[i]))
  }

  /** The email an article number stands for. */
  function ArticleEmail(articles: Articles, n: nat): EmailData {
    EmailData(Decimal.Render(n), if n in articles then Flatten(articles[n]) else "")
  }

  function EmailsFor(articles: Articles, ns: seq<nat>): (emails: seq<EmailData>)
    ensures |emails| == |ns|
  {
    seq(|ns|, i requires 0 <= i < |ns| => ArticleEmail(articles, ns[i]))
  }

  lemma EmailsForConcat(articles: Articles, a: seq<nat>, b: seq<nat>)
    ensures EmailsFor(articles, a + b) == EmailsFor(articles, a) + EmailsFor(articles, b)
  {
    hide ArticleEmail;
  }

  lemma IdsOfEmails(articles: Articles, ns: seq<nat>)
    ensures Ids(EmailsFor(articles, ns)) == RenderAll(ns)
  {
    hide Decimal.Render;
  }

  lemma FetchedStep(articles: Articles, from: nat, to: nat)
    requires from < to
    ensures Fetched(articles, from, to)
         == Fetched(articles, from, to - 1) + if to - 1 in articles then [ArticleEmail(articles, to - 1)] else []
  {
    hide Decimal.Render, Flatten;
  }

  lemma {:induction false} FetchedAre(articles: Articles, from: nat, to: nat)
    ensures Fetched(articles, from, to) == EmailsFor(articles, Between(articles.Keys, from, to))
  {
    hide EmailsFor, ArticleEmail;
    if to <= from {
      NoEmailsFor(articles);
    } else {
      FetchedAre(articles, from, to - 1);
      FetchedStep(articles, from, to);
      EmailsForConcat(articles, Between(articles.Keys, from, to - 1), [to - 1]);
      OneEmail(articles, to - 1);
    }
  }

  lemma OneEmail(articles: Articles, n: nat)
    ensures EmailsFor(articles, [n]) == [ArticleEmail(articles, n)]
  {
  }

  lemma NoEmailsFor(articles: Articles)
    ensures EmailsFor(articles, []) == []
  {
  }

  lemma SessionReads(articles: Articles, last: nat, s: Session)
    ensures SessionEmails(articles, last, s) == EmailsFor(articles, Reads(articles.Keys, last, s))
    ensures Ids(SessionEmails(articles, last, s)) == RenderAll(Reads(articles.Keys, last, s))
  {
    hide Decimal.Render, Fetched, Between, ArticleEmail;
    FetchedAre(articles, Start(last, s), s.stop);
    NoEmailsFor(articles);
    IdsOfEmails(articles, Reads(articles.Keys, last, s));
  }

  lemma ResumePointReadsBack(yaml: Yaml, last: nat)
    requires yaml.FaithfulOn(DecimalIds()) && last <= Decimal.USIZE_MAX
    ensures LastArticle(yaml, Holding(yaml, IdOf(last))) == Some(last)
  {
    assert Decimal.Render(last) in DecimalIds();
    Decimal.ParseRender(last);
  }

  /** The numbers of one session never get shorter as texts, so the file is exact at its end. */
  lemma NumbersNeverShorter(yaml: Yaml, last: nat, ns: seq<nat>)
    requires yaml.FaithfulOn(DecimalIds())
    requires forall i :: 0 <= i < |ns| ==> last <= ns[i]
    requires forall i, j :: 0 <= i < j < |ns| ==> ns[i] < ns[j]
    ensures NeverShorter(yaml, Holding(yaml, IdOf(last)), RenderAll(ns))
  {
    hide Decimal.Render, Yaml.FaithfulOn, NeverShorter;
    var ids := RenderAll(ns);
    forall i, j | 0 <= i < j < |ids| ensures |ids[i]| <= |ids[j]| {
      Decimal.RenderLengthMonotone(ns[i], ns[j]);
    }
    if ns != [] {
      Decimal.RenderLengthMonotone(last, ns[0]);
    }
    MonotoneLengths(yaml, IdOf(last), ids, DecimalIds());
  }

  /** After a session, whatever the store buffered, the progress file holds exactly the last
      article archived, and the next session reads back exactly that number. */
  lemma ProgressNamesLast(mode: AW.WriteMode, yaml: Yaml, articles: Articles, a: Archive, s: Session)
    requires yaml.FaithfulOn(DecimalIds()) && 0 !in articles && Possible(a.last, s)
    ensures AW.FinalProgress(mode, yaml, Holding(yaml, IdOf(a.last)), SessionEmails(articles, a.last, s))
         == Holding(yaml, IdOf(Step(articles.Keys, a, s).last))
  {
    hide Decimal.Render, Yaml.FaithfulOn, NeverShorter, AW.FinalProgress, Fetched, Between, EmailsFor;
    var ns, emails := Reads(articles.Keys, a.last, s), SessionEmails(articles, a.last, s);
    SessionReads(articles, a.last, s);
    NumbersNeverShorter(yaml, a.last, ns);
    AW.FinalProgressIsLatest(mode, yaml, Holding(yaml, IdOf(a.last)), emails);
    if ns != [] {
      assert Last(ns) in articles;
      assert Last(RenderAll(ns)) == Decimal.Render(Last(ns));
    }
  }

  lemma HistoryPush(available: set<nat>, sessions: seq<Session>, s: Session)
    requires History(available, sessions) && Possible(After(available, sessions).last, s)
    requires forall n :: n in available ==> s.low <= n
    ensures History(available, sessions + [s])
    ensures After(available, sessions + [s]) == Step(available, After(available, sessions), s)
  {
    assert (sessions + [s])[..|sessions|] == sessions;
  }

  /** The sessions saw the marks their servers announced. */
  ghost predicate SawMarks(streams: seq<NntpStream>, sessions: seq<Session>) {
    && |sessions| <= |streams|
    && forall k :: 0 <= k < |sessions| ==> sessions[k].low == streams[k].low && sessions[k].high == streams[k].high
  }

  lemma SawMarksPush(streams: seq<NntpStream>, sessions: seq<Session>, s: Session)
    requires SawMarks(streams, sessions) && |sessions| < |streams|
    requires s.low == streams[|sessions|].low && s.high == streams[|sessions|].high
    ensures SawMarks(streams, sessions + [s])
  {
  }

  /** The emails of all sessions are in files: one `.eml` file each, or rows of Parquet files that
      the sessions left; nothing else. */
  ghost predicate OnDisk(mode: AW.WriteMode, emails: seq<EmailData>, c: Contents) {
    match mode
    case RawEmails => c.eml == AW.EmlFiles(map[], emails) && c.parquet == map[]
    case Parquet(_) =>
      c.eml == map[] && exists written :: ATP.LeftBy(written, c.parquet) && ATP.ArchivedIn(written) == emails
  }

  /** The directory holds what the abstract history says: the emails of the same numbers in the same
      order, in files, and exactly the last number in the progress file. */
  ghost predicate Reflects(mode: AW.WriteMode, yaml: Yaml, articles: Articles, sessions: seq<Session>, c: Contents) {
    && History(articles.Keys, sessions)
    && c.progress == Holding(yaml, IdOf(After(articles.Keys, sessions).last))
    && OnDisk(mode, EmailsFor(articles, After(articles.Keys, sessions).log), c)
  }

  lemma OnDiskPush(mode: AW.WriteMode, yaml: Yaml, record: (string, nat) -> string, older: seq<EmailData>,
                   emails: seq<EmailData>, before: Contents, after: Contents)
    requires OnDisk(mode, older, before) && AW.Stored(mode, yaml, record, emails, before, after)
    ensures OnDisk(mode, older + emails, after)
  {
    hide AW.FinalProgress, AW.Lineage.AppendAll, AW.Lines, ATP.LeftBy, AddedTo, FinalFiles;
    match mode {
      case RawEmails =>
        AW.EmlFilesConcat(map[], older, emails);
      case Parquet(m) =>
        var written :| ATP.LeftBy(written, before.parquet) && ATP.ArchivedIn(written) == older;
        ATP.WriterIsSession(m, yaml, record, emails, before, after, written);
        ATP.ArchivedInPush(written, ATP.StoreSession(m, emails));
    }
  }

  lemma ReflectsPush(mode: AW.WriteMode, yaml: Yaml, record: (string, nat) -> string, articles: Articles,
                     sessions: seq<Session>, s: Session, before: Contents, after: Contents)
    requires yaml.FaithfulOn(DecimalIds()) && 0 !in articles
    requires Reflects(mode, yaml, articles, sessions, before)
    requires Possible(After(articles.Keys, sessions).last, s) && forall n :: n in articles ==> s.low <= n
    requires AW.Stored(mode, yaml, record, SessionEmails(articles, After(articles.Keys, sessions).last, s), before,
                       after)
    ensures Reflects(mode, yaml, articles, sessions + [s], after)
  {
    hide Yaml.FaithfulOn, AW.FinalProgress, AW.Lineage.AppendAll, History, After, EmailsFor, Reads, SessionEmails,
      OnDisk;
    var a := After(articles.Keys, sessions);
    ProgressNamesLast(mode, yaml, articles, a, s);
    SessionReads(articles, a.last, s);
    EmailsForConcat(articles, a.log, Reads(articles.Keys, a.last, s));
    OnDiskPush(mode, yaml, record, EmailsFor(articles, a.log), SessionEmails(articles, a.last, s), before, after);
    HistoryPush(articles.Keys, sessions, s);
  }

  lemma ResumePointFits(articles: Articles, sessions: seq<Session>)
    requires History(articles.Keys, sessions) && 0 !in articles
    requires forall n :: n in articles ==> n <= Decimal.USIZE_MAX
    ensures After(articles.Keys, sessions).last <= Decimal.USIZE_MAX
  {
    ArchivedExactly(articles.Keys, sessions, 0);
  }

  lemma NothingReflected(mode: AW.WriteMode, yaml: Yaml, articles: Articles, c: Contents)
    requires c.progress == None && c.eml == map[] && c.parquet == map[]
    ensures Reflects(mode, yaml, articles, [], c)
  {
    hide ArticleEmail;
    NoEmailsFor(articles);
    if mode.Parquet? {
      assert ATP.LeftBy([], c.parquet) && ATP.ArchivedIn([]) == [];
    }
  }

  /** The worker over one list: a session each time the list comes round. Whatever happened in the
      sessions, what the directory holds is the archive of the abstract history. */
  method ConsummeList(dir: Directory, mode: AW.WriteMode, yaml: Yaml, record: (string, nat) -> string,
                      articles: Articles, streams: seq<NntpStream>, flags: seq<ShutdownFlag>)
    returns (ghost sessions: seq<Session>)
    requires |streams| == |flags| && 0 !in articles && yaml.FaithfulOn(DecimalIds())
    requires forall n :: n in articles ==> n <= Decimal.USIZE_MAX
    requires forall k :: 0 <= k < |streams| ==>
      streams[k].articles == articles && forall n :: n in articles ==> streams[k].low <= n
    requires dir.progress == None && dir.eml == map[] && dir.parquet == map[]
    modifies dir, streams, flags
    ensures |sessions| == |streams| && SawMarks(streams, sessions)
    ensures Reflects(mode, yaml, articles, sessions, dir.Snapshot())
  {
    sessions := [];
    NothingReflected(mode, yaml, articles, dir.Snapshot());
    for k := 0 to |streams|
      invariant |sessions| == k && SawMarks(streams, sessions)
      invariant Reflects(mode, yaml, articles, sessions, dir.Snapshot())
    {
      hide Yaml.FaithfulOn, AW.Stored, SawMarks, After, History, SessionEmails, Possible, OnDisk, EmailsFor,
        SessionErrors, SessionResult, SessionStop;
      ResumePointFits(articles, sessions);
      ghost var a, before := After(articles.Keys, sessions), dir.Snapshot();
      ResumePointReadsBack(yaml, a.last);
      ghost var session;
      var result;
      result, session := HandleGroup(dir, mode, yaml, record, streams[k], flags[k]);
      ReflectsPush(mode, yaml, record, articles, sessions, session, before, dir.Snapshot());
      SawMarksPush(streams, sessions, session);
      sessions := sessions + [session];
    }
  }

  /** What a reader of the directory finds: every available article up to the stored progress, with
      its text, under its own name or as a row of some file, however often it was fetched. */
  lemma ArticleIsOnDisk(mode: AW.WriteMode, yaml: Yaml, articles: Articles, sessions: seq<Session>, c: Contents, n: nat)
    requires Reflects(mode, yaml, articles, sessions, c) && 0 !in articles
    requires n in articles && n <= After(articles.Keys, sessions).last
    ensures mode.RawEmails? ==>
      var name := Decimal.Render(n) + ".eml"; name in c.eml && c.eml[name] == Flatten(articles[n])
    ensures mode.Parquet? ==> exists name :: name in c.parquet && ArticleEmail(articles, n) in Rows(c.parquet[name])
  {
    hide History, After, EmailsFor, Decimal.Render, ATP.LeftBy, ATP.ArchivedIn, AW.EmlFiles, Rows;
    var log := After(articles.Keys, sessions).log;
    ResumeIsSafe(articles.Keys, sessions, n);
    var i :| 0 <= i < |log| && log[i] == n;
    EmailAt(articles, log, i);
    match mode {
      case RawEmails =>
        SameNumberSameText(articles, log, i);
        AW.EmlFilesHold(map[], EmailsFor(articles, log), i);
      case Parquet(_) =>
        var written :| ATP.LeftBy(written, c.parquet) && ATP.ArchivedIn(written) == EmailsFor(articles, log);
        var name := ATP.RowIsInFile(written, c.parquet, i);
    }
  }

  lemma EmailAt(articles: Articles, ns: seq<nat>, i: nat)
    requires i < |ns|
    ensures EmailsFor(articles, ns)[i] == ArticleEmail(articles, ns[i])
  {
    hide ArticleEmail;
  }

  lemma SameNumberSameText(articles: Articles, ns: seq<nat>, i: nat)
    requires i < |ns|
    ensures var emails := EmailsFor(articles, ns);
      forall k :: i < k < |emails| && emails[k].emailId == emails[i].emailId ==> emails[k].content == emails[i].content
  {
    hide Decimal.Render;
    forall k | i < k < |ns| && Decimal.Render(ns[k]) == Decimal.Render(ns[i]) ensures ns[k] == ns[i] {
      Decimal.ValueOfRender(ns[k]);
      Decimal.ValueOfRender(ns[i]);
    }
  }

  /** And in raw mode nothing else. */
  lemma OnlyArticlesOnDisk(yaml: Yaml, articles: Articles, sessions: seq<Session>, c: Contents, name: string)
    requires Reflects(AW.RawEmails, yaml, articles, sessions, c) && 0 !in articles && name in c.eml
    ensures exists n :: n in articles && n <= After(articles.Keys, sessions).last && name == Decimal.Render(n) + ".eml"
  {
    hide History, After, EmailsFor, Decimal.Render, AW.EmlFiles;
    var log := After(articles.Keys, sessions).log;
    AW.EmlFilesOnly(map[], EmailsFor(articles, log), name);
    var i :| 0 <= i < |log| && name == AW.EmlName(EmailsFor(articles, log)[i]);
    EmailAt(articles, log, i);
    ResumeIsSafe(articles.Keys, sessions, log[i]);
  }
}
