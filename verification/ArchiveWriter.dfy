/** The facade every worker stores through: email store, progress file, lineage file, error log. */
module ArchiveWriter {
  import opened Prelude
  import opened EmailStore
  import opened ProgressFile
  import Lineage

  datatype WriteMode = RawEmails | Parquet(bufferSize: nat)

  const STEM := "data"

  /** One `.eml` file per email, written at once. */
  class RawEmailStore {
    const dir: Directory

    constructor (dir: Directory)
      ensures this.dir == dir
    {
      this.dir := dir;
    }

    method AddEmail(email: EmailData) returns (synced: Option<seq<string>>)
      modifies dir`eml
      ensures dir.eml == old(dir.eml)[EmlName(email) := email.content]
      ensures synced == Some([email.emailId])
    {
      dir.eml := dir.eml[EmlName(email) := email.content];
      synced := Some([email.emailId]);
    }
  }

  function EmlName(email: EmailData): string {
    email.emailId + ".eml"
  }

  function EmlFiles(files: map<string, string>, emails: seq<EmailData>): map<string, string> {
    if emails == [] then files
    else EmlFiles(files, emails[..|emails| - 1])[EmlName(Last(emails)) := Last(emails).content]
  }

  lemma EmlNameInjective(a: EmailData, b: EmailData)
    ensures EmlName(a) == EmlName(b) <==> a.emailId == b.emailId
  {
    var x, y := a.emailId, b.emailId;
    assert x == (x + ".eml")[..|x + ".eml"| - 4] && y == (y + ".eml")[..|y + ".eml"| - 4];
  }

  /** An archived email is found under its own name if and only if the last one archived under its
      identifier has the same content. */
  lemma {:induction false} EmlFilesHoldIff(files: map<string, string>, emails: seq<EmailData>, i: nat, last: nat)
    requires i <= last < |emails| && emails[last].emailId == emails[i].emailId
    requires forall k :: last < k < |emails| ==> emails[k].emailId != emails[i].emailId
    ensures var disk := EmlFiles(files, emails);
      && EmlName(emails[i]) in disk
      && (disk[EmlName(emails[i])] == emails[i].content <==> emails[last].content == emails[i].content)
  {
    var n := |emails| - 1;
    EmlNameInjective(emails[i], emails[n]);
    if last < n {
      var older := emails[..n];
      assert older[i] == emails[i] && older[last] == emails[last];
      EmlFilesHoldIff(files, older, i, last);
    }
  }

  /** So every archived email is found, if whatever was archived again had the same content. */
  lemma {:induction false} EmlFilesHold(files: map<string, string>, emails: seq<EmailData>, i: nat)
    requires i < |emails|
    requires forall k :: i < k < |emails| && emails[k].emailId == emails[i].emailId ==>
      emails[k].content == emails[i].content
    ensures var disk := EmlFiles(files, emails);
      EmlName(emails[i]) in disk && disk[EmlName(emails[i])] == emails[i].content
  {
    var n := |emails| - 1;
    EmlNameInjective(emails[i], emails[n]);
    if i < n {
      var older := emails[..n];
      assert older[i] == emails[i];
      EmlFilesHold(files, older, i);
    }
  }

  /** Nothing else is there: every file is an old one or that of an archived email. */
  lemma {:induction false} EmlFilesOnly(files: map<string, string>, emails: seq<EmailData>, name: string)
    requires name in EmlFiles(files, emails)
    ensures name in files || exists i :: 0 <= i < |emails| && name == EmlName(emails[i])
  {
    if emails != [] && name != EmlName(Last(emails)) {
      EmlFilesOnly(files, emails[..|emails| - 1], name);
    }
  }

  lemma {:induction false} EmlFilesConcat(files: map<string, string>, a: seq<EmailData>, b: seq<EmailData>)
    ensures EmlFiles(EmlFiles(files, a), b) == EmlFiles(files, a + b)
  {
    if b == [] {
      assert a + b == a;
    } else {
      assert (a + b)[..|a + b| - 1] == a + b[..|b| - 1];
      EmlFilesConcat(files, a, b[..|b| - 1]);
    }
  }

  /** The archived emails the store of a mode has put into files so far; the rest is buffered. */
  function Committed(mode: WriteMode, archived: seq<EmailData>): seq<EmailData> {
    match mode
    case RawEmails => archived
    case Parquet(m) => Run(m, archived).Written()
  }

  function Pending(mode: WriteMode, archived: seq<EmailData>): seq<EmailData> {
    match mode
    case RawEmails => []
    case Parquet(m) => Run(m, archived).buffer
  }

  lemma CommittedThenPending(mode: WriteMode, archived: seq<EmailData>)
    ensures Committed(mode, archived) + Pending(mode, archived) == archived
  {
    if mode.Parquet? {
      RunIsGood(mode.bufferSize, archived);
    }
  }

  /** Adding an email either leaves the committed part alone or commits everything. */
  lemma CommittedAfterPush(mode: WriteMode, archived: seq<EmailData>, email: EmailData)
    ensures Pending(mode, archived + [email]) == Pending(mode, archived) + [email] ==>
      Committed(mode, archived + [email]) == Committed(mode, archived)
    ensures Pending(mode, archived + [email]) == [] ==>
      Committed(mode, archived + [email]) == archived + [email]
  {
    hide Committed, Pending;
    CommittedThenPending(mode, archived);
    CommittedThenPending(mode, archived + [email]);
    var before, after := Committed(mode, archived), Committed(mode, archived + [email]);
    if Pending(mode, archived + [email]) == Pending(mode, archived) + [email] {
      assert |after| == |before|;
      assert before == (archived + [email])[..|before|] == after;
    }
  }

  /** The progress file after the writer is dropped: committed identifiers one by one, then the last
      of the emails that were still buffered. */
  function FinalProgress(mode: WriteMode, yaml: Yaml, file: Option<string>, archived: seq<EmailData>): Option<string> {
    var progress := UpdateAll(yaml, file, Ids(Committed(mode, archived)));
    if Pending(mode, archived) == [] then progress else Update(yaml, progress, Last(Ids(Pending(mode, archived))))
  }

  /** Both stores refine one archive: once the writer is dropped the progress file holds exactly the
      last archived identifier, whatever the mode and the buffer size. */
  lemma FinalProgressIsLatest(mode: WriteMode, yaml: Yaml, file: Option<string>, archived: seq<EmailData>)
    requires NeverShorter(yaml, file, Ids(archived))
    ensures FinalProgress(mode, yaml, file, archived) == Latest(yaml, file, Ids(archived))
  {
    hide Committed, Pending;
    var committed, pending := Committed(mode, archived), Pending(mode, archived);
    CommittedThenPending(mode, archived);
    IdsConcat(committed, pending);
    if pending == [] {
      assert committed == archived;
      UpdateAllIsLatest(yaml, file, Ids(archived));
    } else {
      NeverShorterPrefix(yaml, file, Ids(archived), |committed|);
      assert Ids(archived)[..|committed|] == Ids(committed);
      UpdateAllIsLatest(yaml, file, Ids(committed));
      assert Last(Ids(pending)) == Last(Ids(archived));
    }
  }

  /** More exactly: it holds the last archived identifier if and only if neither the old file nor
      any text written on the way was longer. */
  lemma FinalProgressExactIff(mode: WriteMode, yaml: Yaml, file: Option<string>, archived: seq<EmailData>)
    requires archived != []
    ensures var last := yaml.render(Last(archived).emailId);
      FinalProgress(mode, yaml, file, archived) == Some(last)
      <==> NothingLonger(yaml, file, Ids(Committed(mode, archived)), |last|)
  {
    hide Committed, Pending, UpdateAll, NothingLonger;
    var committed, pending := Committed(mode, archived), Pending(mode, archived);
    CommittedThenPending(mode, archived);
    if pending == [] {
      assert committed == archived;
      ExactAtEndIff(yaml, file, Ids(committed));
    } else {
      assert Last(Ids(pending)) == Last(archived).emailId;
      LastTextIff(yaml, file, Ids(committed), Last(Ids(pending)));
    }
  }

  lemma LastTextIff(yaml: Yaml, file: Option<string>, ids: seq<string>, id: string)
    ensures Update(yaml, UpdateAll(yaml, file, ids), id) == Some(yaml.render(id))
            <==> NothingLonger(yaml, file, ids, |yaml.render(id)|)
  {
    hide UpdateAll;
    var before := UpdateAll(yaml, file, ids);
    LongestStays(yaml, file, ids, |yaml.render(id)|);
    if before.Some? {
      OverwriteIsExact(before.value, yaml.render(id));
    }
  }

  /** Between calls the progress file holds the last identifier that is in a file, and never one
      that is still only in memory. */
  lemma CommittedProgressIsLatest(mode: WriteMode, yaml: Yaml, file: Option<string>, archived: seq<EmailData>)
    requires NeverShorter(yaml, file, Ids(archived))
    ensures UpdateAll(yaml, file, Ids(Committed(mode, archived))) == Latest(yaml, file, Ids(Committed(mode, archived)))
    ensures Committed(mode, archived) <= archived
  {
    hide Committed, Pending;
    var committed := Committed(mode, archived);
    CommittedThenPending(mode, archived);
    IdsConcat(committed, Pending(mode, archived));
    if archived != [] {
      NeverShorterPrefix(yaml, file, Ids(archived), |committed|);
      assert Ids(archived)[..|committed|] == Ids(committed);
    }
    UpdateAllIsLatest(yaml, file, Ids(committed));
  }

  /** Recording what a flush brought into files records everything archived so far. */
  lemma ProgressOfFlush(mode: WriteMode, yaml: Yaml, file: Option<string>, older: seq<EmailData>, email: EmailData)
    ensures UpdateAll(yaml, UpdateAll(yaml, file, Ids(Committed(mode, older))), Ids(Pending(mode, older) + [email]))
         == UpdateAll(yaml, file, Ids(older + [email]))
  {
    hide Committed, Pending, UpdateAll;
    CommittedThenPending(mode, older);
    IdsConcat(Committed(mode, older), Pending(mode, older) + [email]);
    UpdateAllConcat(yaml, file, Ids(Committed(mode, older)), Ids(Pending(mode, older) + [email]));
    assert Committed(mode, older) + (Pending(mode, older) + [email]) == older + [email];
  }

  lemma RunPush(m: nat, archived: seq<EmailData>, email: EmailData)
    ensures Run(m, archived + [email]) == Pushed(m, Run(m, archived), email)
  {
    assert (archived + [email])[..|archived|] == archived;
  }

  datatype Store = Raw(raw: RawEmailStore) | Buffered(parquet: ParquetEmailStore)

  /** The lineage text after the given emails, the clock read once for each. */
  function Lines(record: (string, nat) -> string, emails: seq<EmailData>): (records: seq<string>)
    ensures |records| == |emails| && forall i :: 0 <= i < |records| ==> records[i] == record(emails[i].emailId, i)
  {
    seq(|emails|, i requires 0 <= i < |emails| => record(emails[i].emailId, i))
  }

  /** What the life of one writer adds to a directory: the emails, in files or in `.eml` form, their
      lineage records, and the progress that names the last of them. */
  ghost predicate Stored(mode: WriteMode, yaml: Yaml, record: (string, nat) -> string, emails: seq<EmailData>,
                         before: Contents, after: Contents)
  {
    && after.progress == FinalProgress(mode, yaml, before.progress, emails)
    && after.lineage == Lineage.AppendAll(before.lineage, Lines(record, emails))
    && match mode {
         case RawEmails =>
           after.eml == EmlFiles(before.eml, emails) && after.parquet == before.parquet
         case Parquet(m) =>
           after.eml == before.eml && AddedTo(STEM, before.parquet, FinalFiles(m, emails), after.parquet)
       }
  }

  lemma LineagePush(record: (string, nat) -> string, file: string, emails: seq<EmailData>, email: EmailData)
    ensures Lineage.AppendAll(file, Lines(record, emails + [email]))
         == Lineage.Append(Lineage.AppendAll(file, Lines(record, emails)), record(email.emailId, |emails|))
  {
    var records := Lines(record, emails + [email]);
    assert records[..|records| - 1] == Lines(record, emails);
  }

  lemma IdsConcat(a: seq<EmailData>, b: seq<EmailData>)
    ensures Ids(a + b) == Ids(a) + Ids(b)
  {
  }

  class ArchiveWriter {
    const dir: Directory
    const yaml: Yaml
    /** Renders a lineage record for an identifier at the given reading of the clock. */
    const record: (string, nat) -> string
    const store: Store
    ghost const mode: WriteMode
    var written: nat

    /** Every email archived through this writer, and what the directory held before. */
    ghost var archived: seq<EmailData>
    ghost const before: Contents
    ghost const owned: object
    ghost const Repr: set<object>

    ghost predicate StoreValid()
      reads this`archived, dir`parquet, dir`eml, owned
    {
      match store
      case Raw(r) =>
        && mode == RawEmails
        && r.dir == dir && r == owned
        && dir.eml == EmlFiles(before.eml, archived) && dir.parquet == before.parquet
      case Buffered(p) =>
        && mode == Parquet(p.maxEmailsPerFile)
        && p.dir == dir && p == owned && p.stem == STEM
        && p.baseline == before.parquet
        && p.Valid() && p.state == Run(p.maxEmailsPerFile, archived)
        && dir.eml == before.eml
    }

    /** At every point between calls the progress file is the result of recording exactly the
        identifiers already in files, never one still buffered. */
    ghost predicate Valid()
      reads this, Repr
      ensures Valid() ==> dir in Repr
    {
      && Repr == {this, dir, owned} && owned != dir && owned != this
      && StoreValid()
      && written == |archived|
      && dir.progress == UpdateAll(yaml, before.progress, Ids(Committed(mode, archived)))
      && dir.lineage == Lineage.AppendAll(before.lineage, Lines(record, archived))
    }

    constructor (dir: Directory, mode: WriteMode, yaml: Yaml, record: (string, nat) -> string)
      ensures Valid() && fresh(Repr - {dir}) && archived == []
      ensures this.dir == dir && this.yaml == yaml && this.record == record && this.mode == mode
      ensures before == dir.Snapshot()
    {
      var s: Store;
      ghost var o: object;
      match mode {
        case RawEmails =>
          var r := new RawEmailStore(dir);
          s, o := Raw(r), r;
        case Parquet(size) =>
          NextIndexExists(STEM, dir.parquet.Keys);
          ghost var first: nat :| IsNextIndex(STEM, dir.parquet.Keys, first);
          var p := new ParquetEmailStore(dir, STEM, size, first);
          s, o := Buffered(p), p;
      }
      this.dir, this.yaml, this.record, this.store, this.written := dir, yaml, record, s, 0;
      this.mode := mode;
      this.archived := [];
      this.before := dir.Snapshot();
      this.owned := o;
      this.Repr := {this, dir, o};
    }

    method LastProcessedId() returns (id: Option<string>)
      ensures id == ProgressFile.LastProcessedId(yaml, dir.progress)
    {
      id := ProgressFile.LastProcessedId(yaml, dir.progress);
    }

    /** Hands the email to whichever store is configured. */
    method AddToStore(email: EmailData) returns (synced: Option<seq<string>>)
      requires StoreValid() && Repr == {this, dir, owned}
      modifies Repr
      ensures StoreValid() && archived == old(archived) + [email] && written == old(written)
      ensures dir.progress == old(dir.progress) && dir.lineage == old(dir.lineage)
      ensures dir.errors == old(dir.errors)
      ensures synced.None? ==> Committed(mode, archived) == Committed(mode, old(archived))
      ensures synced.Some? ==> Committed(mode, archived) == archived
      ensures synced.Some? ==> synced.value == Ids(Pending(mode, old(archived)) + [email])
    {
      hide Run, Pushed, State.Written, ParquetEmailStore.Represents;
      ghost var older := archived;
      archived := archived + [email];
      match store {
        case Raw(r) =>
          assert archived[..|older|] == older;
          synced := r.AddEmail(email);
        case Buffered(p) =>
          RunPush(p.maxEmailsPerFile, older, email);
          CommittedAfterPush(mode, older, email);
          synced := p.AddEmail(email);
      }
    }

    /** Records each identifier in turn, overwriting the progress file every time. */
    method RecordProgress(ids: seq<string>)
      modifies dir`progress
      ensures dir.progress == UpdateAll(yaml, old(dir.progress), ids)
    {
      for k := 0 to |ids|
        invariant dir.progress == UpdateAll(yaml, old(dir.progress), ids[..k])
      {
        assert ids[..k + 1][..k] == ids[..k];
        dir.progress := Update(yaml, dir.progress, ids[k]);
      }
      assert ids[..|ids|] == ids;
    }

    /** Stores the email, records progress for everything that reached a file, logs lineage. */
    method ArchiveEmail(emailId: string, lines: seq<string>)
      requires Valid()
      modifies Repr
      ensures Valid() && archived == old(archived) + [EmailData(emailId, Flatten(lines))]
      ensures dir.errors == old(dir.errors)
    {
      hide Committed, Pending, UpdateAll, StoreValid, Lines, Lineage.AppendAll, Lineage.Append;
      ghost var older := archived;
      var email := EmailData(emailId, Flatten(lines));
      var synced := AddToStore(email);
      if synced.Some? {
        RecordProgress(synced.value);
        ProgressOfFlush(mode, yaml, before.progress, older, email);
      }
      LineagePush(record, before.lineage, older, email);
      dir.lineage := Lineage.Append(dir.lineage, record(emailId, written));
      written := written + 1;
    }

    method LogError(id: string, error: string)
      requires Valid()
      modifies dir`errors
      ensures Valid() && dir.errors == old(dir.errors) + [(id, error)]
    {
      dir.errors := dir.errors + [(id, error)];
    }

    /** The end of the writer's life: closes the store and records the last buffered email. */
    method Drop()
      requires Valid()
      modifies Repr
      ensures archived == old(archived)
      ensures Stored(mode, yaml, record, archived, before, dir.Snapshot())
      ensures dir.errors == old(dir.errors)
    {
      hide Run, Flushed, UpdateAll, State.Written, Disk, IndexOf, FileName;
      match store {
        case Raw(_) =>
        case Buffered(p) =>
          var synced := p.Close();
          if synced.Some? && synced.value != [] {
            dir.progress := Update(yaml, dir.progress, Last(synced.value));
          }
      }
    }
  }
}
