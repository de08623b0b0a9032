/** The buffered Parquet store and the one-file-per-email store behind the archive writer. */
module EmailStore {
  import opened Prelude
  import opened Text
  import Decimal

  datatype EmailData = EmailData(emailId: string, content: string)

  /** One row group, written by one flush. */
  type Batch = seq<EmailData>

  /** A finished or open Parquet file: its row groups in write order. */
  type ParquetFile = seq<Batch>

  function Rows(file: ParquetFile): seq<EmailData> {
    Flatten(file)
  }

  function Ids(emails: seq<EmailData>): (ids: seq<string>)
    ensures |ids| == |emails|
    ensures forall i :: 0 <= i < |ids| ==> ids[i] == emails[i].emailId
  {
    seq(|emails|, i requires 0 <= i < |emails| => emails[i].emailId)
  }

  /** The rows of several files, file after file. */
  function AllRows(files: seq<ParquetFile>): seq<EmailData> {
    if files == [] then [] else AllRows(files[..|files| - 1]) + Rows(Last(files))
  }

  lemma AllRowsPush(files: seq<ParquetFile>, file: ParquetFile)
    ensures AllRows(files + [file]) == AllRows(files) + Rows(file)
  {
    assert (files + [file])[..|files|] == files;
  }

  // ----- file names

  const PARQUET_SUFFIX := ".parquet"

  function FileName(stem: string, index: nat): string {
    stem + "_" + Decimal.Pad(index, 3) + PARQUET_SUFFIX
  }

  lemma PrefixAndSuffixApart(stem: string, name: string)
    requires StartsWith(name, stem + "_") && EndsWith(name, PARQUET_SUFFIX)
    ensures |stem| + 1 <= |name| - 8
  {
    assert name[|stem|] == (stem + "_")[|stem|] == '_';
    assert forall i :: 0 <= i < 8 ==> PARQUET_SUFFIX[i] == name[|name| - 8..][i] == name[|name| - 8 + i];
  }

  /** The index that `resolve_path` reads from a directory entry, if it has one. */
  function IndexOf(stem: string, name: string): Option<nat> {
    if StartsWith(name, stem + "_") && EndsWith(name, PARQUET_SUFFIX) then
      PrefixAndSuffixApart(stem, name);
      Decimal.ParseNat(name[|stem| + 1..|name| - 8])
    else None
  }

  lemma IndexOfFileName(stem: string, index: nat)
    ensures IndexOf(stem, FileName(stem, index)) == Some(index)
  {
    var name, digits := FileName(stem, index), Decimal.Pad(index, 3);
    assert name == (stem + "_") + digits + PARQUET_SUFFIX;
    assert name[..|stem| + 1] == stem + "_";
    assert name[|name| - 8..] == PARQUET_SUFFIX;
    assert name[|stem| + 1..|name| - 8] == digits;
    Decimal.ParsePad(index, 3);
  }

  lemma FileNameInjective(stem: string, i: nat, j: nat)
    ensures FileName(stem, i) == FileName(stem, j) ==> i == j
  {
    IndexOfFileName(stem, i);
    IndexOfFileName(stem, j);
  }

  /** Every index in use lies below `next`, and `next` is 0 or one above an index in use. */
  ghost predicate IsNextIndex(stem: string, names: set<string>, next: nat) {
    && (forall n {:trigger IndexOf(stem, n)} :: n in names && IndexOf(stem, n).Some? ==> IndexOf(stem, n).value < next)
    && (next > 0 ==> exists n {:trigger IndexOf(stem, n)} :: n in names && IndexOf(stem, n) == Some(next - 1))
  }

  /** The file name of the next index is never taken, so creating the file destroys nothing. */
  lemma NextIndexIsFree(stem: string, names: set<string>, next: nat)
    requires IsNextIndex(stem, names, next)
    ensures FileName(stem, next) !in names
  {
    IndexOfFileName(stem, next);
  }

  lemma NextIndexUnique(stem: string, names: set<string>, a: nat, b: nat)
    requires IsNextIndex(stem, names, a) && IsNextIndex(stem, names, b)
    ensures a == b
  {
  }

  lemma NextIndexExists(stem: string, names: set<string>)
    ensures exists next: nat :: IsNextIndex(stem, names, next)
  {
    if names == {} {
      assert IsNextIndex(stem, names, 0);
    } else {
      var n :| n in names;
      NextIndexExists(stem, names - {n});
      var next: nat :| IsNextIndex(stem, names - {n}, next);
      NextIndexWith(stem, names - {n}, next, n);
      assert names - {n} + {n} == names;
    }
  }

  function NextWith(stem: string, next: nat, n: string): nat {
    var index := IndexOf(stem, n);
    if index.Some? && index.value >= next then index.value + 1 else next
  }

  lemma NextIndexWith(stem: string, names: set<string>, next: nat, n: string)
    requires IsNextIndex(stem, names, next)
    ensures IsNextIndex(stem, names + {n}, NextWith(stem, next, n))
  {
    hide FileName, IndexOf;
  }

  lemma NextIndexAfterCreate(stem: string, names: set<string>, next: nat)
    requires IsNextIndex(stem, names, next)
    ensures IsNextIndex(stem, names + {FileName(stem, next)}, next + 1)
  {
    IndexOfFileName(stem, next);
  }

  /** The directory after files of consecutive fresh indices were created in it. */
  function Disk(stem: string, base: map<string, ParquetFile>, first: nat, files: seq<ParquetFile>)
    : map<string, ParquetFile>
  {
    if files == [] then base
    else Disk(stem, base, first, files[..|files| - 1])[FileName(stem, first + |files| - 1) := Last(files)]
  }

  lemma DiskPush(stem: string, base: map<string, ParquetFile>, first: nat, files: seq<ParquetFile>, file: ParquetFile)
    ensures Disk(stem, base, first, files + [file])
         == Disk(stem, base, first, files)[FileName(stem, first + |files|) := file]
  {
    assert (files + [file])[..|files|] == files;
  }

  /** Rewriting the newest file rewrites its directory entry and no other. */
  lemma DiskRewrite(stem: string, base: map<string, ParquetFile>, first: nat, files: seq<ParquetFile>,
                    file: ParquetFile, file': ParquetFile)
    ensures var name, disk := FileName(stem, first + |files|), Disk(stem, base, first, files + [file]);
      && name in disk && disk[name] == file
      && Disk(stem, base, first, files + [file']) == disk[name := file']
  {
    DiskPush(stem, base, first, files, file);
    DiskPush(stem, base, first, files, file');
  }

  lemma {:induction false} DiskNextIndex(stem: string, base: map<string, ParquetFile>, first: nat,
                                         files: seq<ParquetFile>)
    requires IsNextIndex(stem, base.Keys, first)
    ensures IsNextIndex(stem, Disk(stem, base, first, files).Keys, first + |files|)
  {
    hide FileName, IndexOf;
    if files != [] {
      var older := files[..|files| - 1];
      DiskNextIndex(stem, base, first, older);
      NextIndexAfterCreate(stem, Disk(stem, base, first, older).Keys, first + |older|);
      assert Disk(stem, base, first, files).Keys
          == Disk(stem, base, first, older).Keys + {FileName(stem, first + |older|)};
    }
  }

  /** A session left these files in a directory: under the next free indices, touching nothing else. */
  ghost predicate AddedTo(stem: string, base: map<string, ParquetFile>, files: seq<ParquetFile>,
                          after: map<string, ParquetFile>) {
    exists first: nat :: IsNextIndex(stem, base.Keys, first) && after == Disk(stem, base, first, files)
  }

  /** The index a scan finds after these files is the next one, and its file is not there yet. */
  lemma NextFileIsFree(stem: string, base: map<string, ParquetFile>, first: nat, files: seq<ParquetFile>, index: nat)
    requires IsNextIndex(stem, base.Keys, first) && IsNextIndex(stem, Disk(stem, base, first, files).Keys, index)
    ensures index == first + |files| && FileName(stem, index) !in Disk(stem, base, first, files)
    ensures Disk(stem, base, first, files + [[]]) == Disk(stem, base, first, files)[FileName(stem, index) := []]
  {
    hide FileName, IsNextIndex, Disk;
    DiskNextIndex(stem, base, first, files);
    NextIndexUnique(stem, Disk(stem, base, first, files).Keys, index, first + |files|);
    NextIndexIsFree(stem, Disk(stem, base, first, files).Keys, index);
    DiskPush(stem, base, first, files, []);
  }

  ghost predicate HasFile(stem: string, disk: map<string, ParquetFile>, index: nat, file: ParquetFile) {
    FileName(stem, index) in disk && disk[FileName(stem, index)] == file
  }

  /** No session destroys what an earlier one left: the old entries keep their contents, and each
      created file is found under its own name. */
  lemma {:induction false} DiskContents(stem: string, base: map<string, ParquetFile>, first: nat,
                                        files: seq<ParquetFile>)
    requires IsNextIndex(stem, base.Keys, first)
    ensures forall n :: n in base ==>
      n in Disk(stem, base, first, files) && Disk(stem, base, first, files)[n] == base[n]
    ensures forall i :: 0 <= i < |files| ==> HasFile(stem, Disk(stem, base, first, files), first + i, files[i])
    ensures |Disk(stem, base, first, files)| == |base| + |files|
  {
    hide FileName, IsNextIndex, HasFile;
    if files != [] {
      var older := files[..|files| - 1];
      DiskContents(stem, base, first, older);
      DiskNextIndex(stem, base, first, older);
      var before := Disk(stem, base, first, older);
      NextIndexIsFree(stem, before.Keys, first + |older|);
      forall i | 0 <= i < |files| ensures HasFile(stem, Disk(stem, base, first, files), first + i, files[i]) {
        HasFileAfter(stem, before, first + |older|, Last(files), first + i, files[i]);
        assert i < |older| ==> HasFile(stem, before, first + i, older[i]);
      }
    }
  }

  lemma HasFileAfter(stem: string, before: map<string, ParquetFile>, next: nat, file: ParquetFile, index: nat,
                     f: ParquetFile)
    requires FileName(stem, next) !in before
    ensures HasFile(stem, before, index, f) || (index == next && f == file) ==>
            HasFile(stem, before[FileName(stem, next) := file], index, f)
  {
    hide FileName;
  }

  // ----- the store as a transition system on values

  function Clamp(n: nat, low: nat, high: nat): nat
    requires low <= high
  {
    if n < low then low else if n > high then high else n
  }

  /** Rows per row group never exceed this, whatever the file size asked for. */
  const MAX_ROW_GROUP: nat := 2048

  function RowGroupSize(maxPerFile: nat): (n: nat)
    ensures 1 <= n <= MAX_ROW_GROUP
  {
    Clamp(maxPerFile, 1, MAX_ROW_GROUP)
  }

  /** The finished files in creation order, the file under construction, the rows not yet in a
      file, and the number of emails counted towards the current file. */
  datatype State = State(done: seq<ParquetFile>, current: Option<ParquetFile>, buffer: Batch, inFile: nat) {
    function Files(): seq<ParquetFile> {
      if current.Some? then done + [current.value] else done
    }

    function Written(): seq<EmailData> {
      AllRows(done) + if current.Some? then Rows(current.value) else []
    }
  }

  const EMPTY_STATE := State([], None, [], 0)

  /** The buffer has become one row group of the file under construction. */
  function Flushed(s: State): State {
    if s.buffer == [] then s
    else
      var file := if s.current.Some? then s.current.value else [];
      s.(current := Some(file + [s.buffer]), buffer := [])
  }

  /** The file under construction, if any, is finished. */
  function Sealed(s: State): State {
    s.(done := s.Files(), current := None)
  }

  /** Both thresholds: a full row group is flushed; a full file is flushed and sealed. */
  function Pushed(m: nat, s: State, email: EmailData): State {
    var p := s.(buffer := s.buffer + [email], inFile := s.inFile + 1);
    var q := if |p.buffer| >= RowGroupSize(m) then Flushed(p) else p;
    if q.inFile >= m > 0 then Sealed(Flushed(q)).(inFile := 0) else q
  }

  function Run(m: nat, emails: seq<EmailData>): State {
    if emails == [] then EMPTY_STATE
    else Pushed(m, Run(m, emails[..|emails| - 1]), Last(emails))
  }

  /** Row groups are never empty and never larger than the row-group size; nor is a file empty. */
  ghost predicate GoodFile(m: nat, file: ParquetFile) {
    && Rows(file) != []
    && forall b :: b in file ==> 1 <= |b| <= RowGroupSize(m)
  }

  ghost predicate GoodFiles(m: nat, s: State) {
    && (forall f :: f in s.done ==> GoodFile(m, f))
    && (s.current.Some? ==> GoodFile(m, s.current.value))
  }

  /** The emails handed over so far are on disk or buffered, finished files are full, and the
      counter of the current file includes the buffer. */
  ghost predicate Counted(m: nat, s: State, added: seq<EmailData>) {
    && s.Written() + s.buffer == added
    && GoodFiles(m, s)
    && (forall f :: f in s.done ==> m > 0 && |Rows(f)| == m)
    && s.inFile == |s.buffer| + (if s.current.Some? then |Rows(s.current.value)| else 0)
    && |s.buffer| <= RowGroupSize(m)
  }

  /** The invariant between calls: moreover both thresholds are out of reach. */
  ghost predicate Good(m: nat, s: State, added: seq<EmailData>) {
    && Counted(m, s, added)
    && |s.buffer| < RowGroupSize(m)
    && (m > 0 ==> s.inFile < m)
  }

  lemma FlushWrites(s: State)
    ensures Flushed(s).Written() == s.Written() + s.buffer && Flushed(s).buffer == []
    ensures s.buffer != [] ==> Flushed(s).current.Some?
    ensures s.buffer != [] ==>
      Rows(Flushed(s).current.value) == (if s.current.Some? then Rows(s.current.value) else []) + s.buffer
  {
    if s.buffer != [] {
      FlattenPush(if s.current.Some? then s.current.value else [], s.buffer);
    }
  }

  lemma SealKeepsWritten(s: State)
    ensures Sealed(s).Written() == s.Written()
  {
    if s.current.Some? {
      AllRowsPush(s.done, s.current.value);
    }
  }

  lemma FlushKeepsCounted(m: nat, s: State, added: seq<EmailData>)
    requires Counted(m, s, added)
    ensures Counted(m, Flushed(s), added) && Flushed(s).buffer == [] && Flushed(s).inFile == s.inFile
  {
    hide AllRows, Rows;
    FlushWrites(s);
    FlushKeepsGoodFiles(m, s);
  }

  lemma FlushKeepsGoodFiles(m: nat, s: State)
    requires GoodFiles(m, s) && |s.buffer| <= RowGroupSize(m)
    ensures GoodFiles(m, Flushed(s))
  {
    hide AllRows, Rows;
    FlushWrites(s);
  }

  lemma SealFullFile(m: nat, s: State, added: seq<EmailData>)
    requires Counted(m, s, added) && s.buffer == [] && s.inFile == m > 0
    ensures Good(m, Sealed(s).(inFile := 0), added)
  {
    SealKeepsWritten(s);
  }

  lemma SameFiles(m: nat, s: State, p: State)
    requires GoodFiles(m, s) && p.done == s.done && p.current == s.current
    ensures GoodFiles(m, p)
  {
  }

  lemma PushKeepsGood(m: nat, s: State, added: seq<EmailData>, email: EmailData)
    requires Good(m, s, added)
    ensures Good(m, Pushed(m, s, email), added + [email])
  {
    hide GoodFiles, Rows, AllRows, Flushed, Sealed;
    var p := s.(buffer := s.buffer + [email], inFile := s.inFile + 1);
    assert p.Written() + p.buffer == added + [email];
    assert GoodFiles(m, p) by { SameFiles(m, s, p); }
    FlushKeepsCounted(m, p, added + [email]);
    var q := if |p.buffer| >= RowGroupSize(m) then Flushed(p) else p;
    FlushKeepsCounted(m, q, added + [email]);
    if q.inFile >= m > 0 {
      SealFullFile(m, Flushed(q), added + [email]);
    }
  }

  lemma EmptyIsGood(m: nat)
    ensures Good(m, EMPTY_STATE, [])
  {
  }

  lemma {:induction false} RunIsGood(m: nat, emails: seq<EmailData>)
    ensures Good(m, Run(m, emails), emails)
  {
    hide Good, Pushed;
    EmptyIsGood(m);
    if emails != [] {
      var older := emails[..|emails| - 1];
      RunIsGood(m, older);
      PushKeepsGood(m, Run(m, older), older, Last(emails));
      assert older + [Last(emails)] == emails;
    }
  }

  /** The files of a whole run: every email added, then the store closed. */
  function FinalFiles(m: nat, emails: seq<EmailData>): seq<ParquetFile> {
    Sealed(Flushed(Run(m, emails))).done
  }

  /** Conservation over a whole run: after any emails and a close, the files in creation order hold
      exactly those emails in order; every row group has between one row and the row-group size;
      no file is empty; every file but the last has exactly `m` rows, and the last at most `m`;
      with `m` zero there is at most one file. */
  lemma Conservation(m: nat, emails: seq<EmailData>)
    ensures var files := FinalFiles(m, emails);
      && AllRows(files) == emails
      && (forall f :: f in files ==> GoodFile(m, f))
      && (forall i :: 0 <= i < |files| - 1 ==> |Rows(files[i])| == m)
      && (files != [] && m > 0 ==> |Rows(Last(files))| <= m)
      && (m == 0 ==> |files| <= 1)
  {
    var s := Run(m, emails);
    RunIsGood(m, emails);
    FlushKeepsCounted(m, s, emails);
    SealKeepsWritten(Flushed(s));
    assert Flushed(s).done == s.done;
  }

  // ----- where exactly the cuts are

  /** Consecutive pieces of `n` elements, the last possibly shorter. */
  function Chunks<T>(s: seq<T>, n: nat): seq<seq<T>>
    requires n > 0
    decreases |s|
  {
    if s == [] then [] else if |s| <= n then [s] else [s[..n]] + Chunks(s[n..], n)
  }

  /** All pieces but the last have `n` elements, and the last at most that, but some. */
  ghost predicate CutAt<T>(pieces: seq<seq<T>>, n: nat) {
    && (forall i :: 0 <= i < |pieces| - 1 ==> |pieces[i]| == n)
    && (pieces != [] ==> 1 <= |Last(pieces)| <= n)
  }

  lemma {:induction false} CutAtIsChunks<T>(pieces: seq<seq<T>>, n: nat)
    requires n > 0 && CutAt(pieces, n)
    ensures pieces == Chunks(Flatten(pieces), n)
  {
    if |pieces| == 1 {
      FlattenOne(pieces[0]);
      assert pieces == [pieces[0]];
    } else if |pieces| > 1 {
      var rest := pieces[1..];
      assert Last(rest) == Last(pieces);
      CutAtIsChunks(rest, n);
      SomeRows(rest);
      assert Flatten(pieces)[..n] == pieces[0] && Flatten(pieces)[n..] == Flatten(rest);
      assert pieces == [pieces[0]] + rest;
    }
  }

  lemma {:induction false} SomeRows<T>(pieces: seq<seq<T>>)
    requires pieces != [] && Last(pieces) != []
    ensures Flatten(pieces) != []
  {
    if |pieces| > 1 {
      assert Last(pieces[1..]) == Last(pieces);
      SomeRows(pieces[1..]);
    }
  }

  /** Row groups are full, but for the last one of a finished file. */
  ghost predicate Tidy(r: nat, s: State) {
    && (forall f :: f in s.done ==> forall i :: 0 <= i < |f| - 1 ==> |f[i]| == r)
    && (s.current.Some? ==> forall i :: 0 <= i < |s.current.value| ==> |s.current.value[i]| == r)
  }

  lemma PushKeepsTidy(m: nat, s: State, added: seq<EmailData>, email: EmailData)
    requires Good(m, s, added) && Tidy(RowGroupSize(m), s)
    ensures Tidy(RowGroupSize(m), Pushed(m, s, email))
  {
    hide GoodFiles, AllRows, Rows, Clamp;
  }

  lemma {:induction false} RunIsTidy(m: nat, emails: seq<EmailData>)
    ensures Tidy(RowGroupSize(m), Run(m, emails)) && Good(m, Run(m, emails), emails)
  {
    hide Good, Pushed, Tidy, RowGroupSize;
    RunIsGood(m, emails);
    if emails == [] {
      NothingTidy(m);
    } else {
      var older := emails[..|emails| - 1];
      RunIsTidy(m, older);
      PushKeepsTidy(m, Run(m, older), older, Last(emails));
    }
  }

  lemma NothingTidy(m: nat)
    ensures Tidy(RowGroupSize(m), EMPTY_STATE)
  {
  }

  function RowsOf(files: seq<ParquetFile>): (r: seq<seq<EmailData>>)
    ensures |r| == |files| && forall i :: 0 <= i < |files| ==> r[i] == Rows(files[i])
  {
    seq(|files|, i requires 0 <= i < |files| => Rows(files[i]))
  }

  lemma {:induction false} AllRowsFlatten(files: seq<ParquetFile>)
    ensures AllRows(files) == Flatten(RowsOf(files))
  {
    hide Rows;
    if files != [] {
      var k := |files| - 1;
      AllRowsFlatten(files[..k]);
      FlattenPush(RowsOf(files[..k]), Rows(files[k]));
      assert RowsOf(files) == RowsOf(files[..k]) + [Rows(files[k])];
    }
  }

  /** The row groups of every file of a whole run. */
  lemma FileIsCut(m: nat, emails: seq<EmailData>, i: nat)
    requires i < |FinalFiles(m, emails)|
    ensures FinalFiles(m, emails)[i] == Chunks(Rows(FinalFiles(m, emails)[i]), Clamp(m, 1, 2048))
  {
    hide Run, Good, AllRows, Flatten, Chunks;
    var s, r := Run(m, emails), RowGroupSize(m);
    var files := FinalFiles(m, emails);
    RunIsTidy(m, emails);
    Conservation(m, emails);
    assert files[i] in files && GoodFile(m, files[i]);
    FinalIsCut(m, s, i);
    CutAtIsChunks(files[i], r);
  }

  lemma FinalIsCut(m: nat, s: State, i: nat)
    requires Tidy(RowGroupSize(m), s) && i < |Sealed(Flushed(s)).done| && GoodFile(m, Sealed(Flushed(s)).done[i])
    ensures CutAt(Sealed(Flushed(s)).done[i], RowGroupSize(m))
  {
    hide Clamp;
    var f := Sealed(Flushed(s)).done[i];
    if i < |s.done| {
      assert f == s.done[i] && f in s.done;
    }
    EmptyFileHasNoRows();
    assert Last(f) in f;
  }

  lemma EmptyFileHasNoRows()
    ensures Rows([]) == []
  {
  }

  /** A whole run, exactly: the emails are cut into files of `m`, and every file into row groups of
      `m`, but at least 1 and at most 2048; with `m` zero everything goes to one file, row by row. */
  lemma FilesAreChunks(m: nat, emails: seq<EmailData>)
    ensures m > 0 ==>
      && |FinalFiles(m, emails)| == |Chunks(emails, m)|
      && forall i :: 0 <= i < |Chunks(emails, m)| ==>
           FinalFiles(m, emails)[i] == Chunks(Chunks(emails, m)[i], Clamp(m, 1, 2048))
    ensures m == 0 ==> FinalFiles(m, emails) == if emails == [] then [] else [Chunks(emails, 1)]
  {
    hide FinalFiles, AllRows, Rows, Flatten, Chunks;
    var files := FinalFiles(m, emails);
    Conservation(m, emails);
    AllRowsFlatten(files);
    forall i | 0 <= i < |files| ensures Rows(files[i]) != [] && files[i] == Chunks(Rows(files[i]), Clamp(m, 1, 2048)) {
      assert GoodFile(m, files[i]);
      FileIsCut(m, emails, i);
    }
    if m > 0 {
      CutAtIsChunks(RowsOf(files), m);
    } else {
      NoRows();
      if files != [] {
        assert RowsOf(files) == [Rows(files[0])];
        FlattenOne(Rows(files[0]));
      }
    }
  }

  lemma NoRows()
    ensures AllRows([]) == [] && Flatten<EmailData>([]) == []
  {
  }

  lemma {:induction false} FullGroupsCount(file: ParquetFile, r: nat)
    requires forall i :: 0 <= i < |file| ==> |file[i]| == r
    ensures |Rows(file)| == |file| * r
  {
    if file != [] {
      FullGroupsCount(file[1..], r);
      assert |file| * r == r + (|file| - 1) * r;
    }
  }

  lemma {:induction false} FullFilesCount(files: seq<ParquetFile>, m: nat)
    requires forall f :: f in files ==> |Rows(f)| == m
    ensures |AllRows(files)| == |files| * m
  {
    hide Rows;
    if files != [] {
      FullFilesCount(files[..|files| - 1], m);
      assert |files| * m == (|files| - 1) * m + m;
    }
  }

  lemma MultipleIsLarge(n: int, x: int)
    requires n > 0
    ensures x >= 1 ==> n * x >= n
    ensures x <= -1 ==> n * x <= -n
  {
    if x >= 1 {
      assert n * x == n + n * (x - 1);
    } else if x <= -1 {
      assert n * x == -n + n * (x + 1);
    }
  }

  lemma Remainder(total: nat, k: nat, n: nat, rest: nat)
    requires total == k * n + rest && rest < n
    ensures total % n == rest
  {
    var q, d := total / n, total % n;
    MultipleIsLarge(n, q - k);
    assert n * (q - k) == n * q - n * k;
  }

  /** And at any moment: exactly what does not fill a row group of the current file is buffered, and
      everything before it is in files. */
  lemma BufferIsRemainder(m: nat, emails: seq<EmailData>)
    ensures var s := Run(m, emails);
      && s.Written() + s.buffer == emails
      && |s.buffer| == (if m == 0 then 0 else |emails| % m % Clamp(m, 1, 2048))
      && (m > 0 ==> s.inFile == |emails| % m)
  {
    hide Run, GoodFiles, AllRows, Rows;
    var s, r := Run(m, emails), RowGroupSize(m);
    RunIsTidy(m, emails);
    var inCurrent := if s.current.Some? then |s.current.value| else 0;
    if s.current.Some? {
      FullGroupsCount(s.current.value, r);
    }
    if m > 0 {
      FullFilesCount(s.done, m);
      Remainder(s.inFile, inCurrent, r, |s.buffer|);
      Remainder(|emails|, |s.done|, m, s.inFile);
    }
  }

  // ----- the store over a directory

  /** The contents of a directory at one moment. */
  datatype Contents = Contents(parquet: map<string, ParquetFile>, eml: map<string, string>,
                               progress: Option<string>, lineage: string)

  /** What one mailing list leaves on disk: Parquet files, `.eml` files, the text of the progress
      file, the text of the lineage file and the lines of the error log. */
  class Directory {
    var parquet: map<string, ParquetFile>
    var eml: map<string, string>
    var progress: Option<string>
    var lineage: string
    var errors: seq<(string, string)>

    ghost function Snapshot(): Contents
      reads this
    {
      Contents(parquet, eml, progress, lineage)
    }

    constructor ()
      ensures Snapshot() == Contents(map[], map[], None, "") && errors == []
    {
      parquet, eml, progress, lineage, errors := map[], map[], None, "", [];
    }
  }

  class ParquetEmailStore {
    const dir: Directory
    const stem: string
    const maxEmailsPerFile: nat
    const rowGroupSize: nat
    var buffer: Batch
    var writerIndex: nat
    var committedFiles: seq<string>
    /** The open file; the writer and its file name are always set together. */
    var writer: Option<string>
    var emailsInCurrentFile: nat

    /** The directory the store found, its first free index, and the abstract state. */
    ghost const baseline: map<string, ParquetFile>
    ghost const first: nat
    ghost var state: State

    ghost predicate Represents(s: State)
      reads this, dir`parquet
    {
      && rowGroupSize == RowGroupSize(maxEmailsPerFile)
      && IsNextIndex(stem, baseline.Keys, first)
      && |committedFiles| == |s.done|
      && (forall i :: 0 <= i < |s.done| ==> committedFiles[i] == FileName(stem, first + i))
      && writer == (if s.current.Some? then Some(FileName(stem, first + |s.done|)) else None)
      && dir.parquet == Disk(stem, baseline, first, s.Files())
      && buffer == s.buffer && emailsInCurrentFile == s.inFile
    }

    ghost predicate Valid()
      reads this, dir`parquet
    {
      Represents(state)
    }

    constructor (dir: Directory, stem: string, maxEmailsPerFile: nat, ghost first: nat)
      requires IsNextIndex(stem, dir.parquet.Keys, first)
      ensures Valid() && state == EMPTY_STATE
      ensures this.dir == dir && this.stem == stem && this.maxEmailsPerFile == maxEmailsPerFile
      ensures baseline == dir.parquet && this.first == first
    {
      this.dir, this.stem, this.maxEmailsPerFile := dir, stem, maxEmailsPerFile;
      this.rowGroupSize := Clamp(maxEmailsPerFile, 1, MAX_ROW_GROUP);
      this.buffer, this.writerIndex, this.committedFiles := [], 0, [];
      this.writer, this.emailsInCurrentFile := None, 0;
      this.baseline, this.first, this.state := dir.parquet, first, EMPTY_STATE;
    }

    /** Picks one above the largest index found among the directory entries. */
    method ResolvePath() returns (name: string)
      modifies this`writerIndex
      ensures IsNextIndex(stem, dir.parquet.Keys, writerIndex)
      ensures name == FileName(stem, writerIndex)
    {
      var maxIndex: Option<nat> := None;
      var entries := dir.parquet.Keys;
      while entries != {}
        invariant entries <= dir.parquet.Keys
        invariant IsNextIndex(stem, dir.parquet.Keys - entries, if maxIndex.Some? then maxIndex.value + 1 else 0)
        decreases entries
      {
        var entry :| entry in entries;
        NextIndexWith(stem, dir.parquet.Keys - entries, if maxIndex.Some? then maxIndex.value + 1 else 0, entry);
        assert dir.parquet.Keys - (entries - {entry}) == dir.parquet.Keys - entries + {entry};
        var index := IndexOf(stem, entry);
        if index.Some? {
          maxIndex := Some(if maxIndex.None? then index.value else Max(maxIndex.value, index.value));
        }
        entries := entries - {entry};
      }
      assert dir.parquet.Keys - entries == dir.parquet.Keys;
      writerIndex := if maxIndex.Some? then maxIndex.value + 1 else 0;
      name := FileName(stem, writerIndex);
    }

    /** Creates the next file, which cannot exist yet. */
    method InitWriter()
      requires Represents(state) && state.current.None?
      modifies this`writer, this`writerIndex, this`state, dir`parquet
      ensures Represents(state) && state == old(state).(current := Some([]))
      ensures writer.Some? && writer.value !in old(dir.parquet)
      ensures dir.parquet == old(dir.parquet)[writer.value := []]
    {
      hide FileName, IsNextIndex, Disk;
      var path := ResolvePath();
      NextFileIsFree(stem, baseline, first, state.done, writerIndex);
      dir.parquet := dir.parquet[path := []];
      writer := Some(path);
      state := state.(current := Some([]));
    }

    /** Writes the buffer as one row group, opening the file first if needed. */
    method Flush() returns (synced: seq<string>)
      requires Represents(state)
      modifies this`buffer, this`writer, this`writerIndex, this`state, dir`parquet
      ensures Represents(state) && state == Flushed(old(state))
      ensures synced == Ids(old(buffer))
    {
      hide FileName, IndexOf;
      synced := [];
      if buffer == [] {
        return;
      }
      if writer.None? {
        InitWriter();
      }
      synced := Ids(buffer);
      ghost var file := state.current.value;
      DiskRewrite(stem, baseline, first, state.done, file, file + [buffer]);
      dir.parquet := dir.parquet[writer.value := dir.parquet[writer.value] + [buffer]];
      state := state.(current := Some(file + [buffer]), buffer := []);
      buffer := [];
    }

    /** Finalises the file under construction, if there is one. */
    method FinishFile()
      requires Represents(state)
      modifies this`writer, this`committedFiles, this`state
      ensures Represents(state) && state == Sealed(old(state))
    {
      hide FileName, IndexOf;
      if writer.Some? {
        committedFiles := committedFiles + [writer.value];
        writer := None;
      }
      state := Sealed(state);
    }

    method RotateFile()
      requires Represents(state)
      modifies this`writer, this`committedFiles, this`writerIndex, this`emailsInCurrentFile, this`state
      ensures Represents(state) && state == Sealed(old(state)).(inFile := 0)
    {
      hide FileName, IndexOf;
      FinishFile();
      writerIndex := writerIndex + 1;
      emailsInCurrentFile := 0;
      state := state.(inFile := 0);
    }

    /** Buffers one email. A full row group or a full file forces a flush, a full file also a
        rotation; the result lists the identifiers that reached the file, oldest first. */
    method AddEmail(email: EmailData) returns (synced: Option<seq<string>>)
      requires Valid()
      modifies this`buffer, this`writer, this`writerIndex, this`committedFiles, this`emailsInCurrentFile,
        this`state, dir`parquet
      ensures Valid() && state == Pushed(maxEmailsPerFile, old(state), email)
      ensures synced.None? ==> state.buffer == old(state.buffer) + [email]
      ensures synced.Some? ==> state.buffer == [] && synced.value == Ids(old(state.buffer) + [email])
    {
      buffer := buffer + [email];
      emailsInCurrentFile := emailsInCurrentFile + 1;
      state := state.(buffer := buffer, inFile := emailsInCurrentFile);
      synced := None;
      if |buffer| >= rowGroupSize {
        var flushed := Flush();
        synced := Some(flushed);
      }
      if emailsInCurrentFile >= maxEmailsPerFile && maxEmailsPerFile > 0 {
        if buffer != [] {
          var flushed := Flush();
          if synced.None? {
            synced := Some(flushed);
          } else {
            // A full row group was just flushed, so the buffer is empty and nothing can be added.
            assert false;
          }
        }
        RotateFile();
      }
    }

    /** Writes what is left and finalises the last file. */
    method Close() returns (synced: Option<seq<string>>)
      requires Valid()
      modifies this`buffer, this`writer, this`writerIndex, this`committedFiles, this`state, dir`parquet
      ensures Valid() && state == Sealed(Flushed(old(state)))
      ensures synced == if old(state.buffer) == [] then None else Some(Ids(old(state.buffer)))
    {
      hide FileName, IndexOf;
      synced := None;
      var flushed := Flush();
      if flushed != [] {
        synced := Some(flushed);
      }
      FinishFile();
    }
  }
}
