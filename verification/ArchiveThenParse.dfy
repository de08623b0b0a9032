/** What the archiver stored over many sessions is what the parser reads back. */
module ArchiveThenParse {
  import opened Prelude
  import opened Text
  import opened Sorting
  import opened EmailStore
  import opened EmailReader
  import Decimal
  import ProgressFile
  import AW = ArchiveWriter

  // ----- the directory after many sessions

  const NO_FILES: map<string, ParquetFile> := map[]

  /** One session of the Parquet store: its file-size threshold and the emails it archived. */
  datatype StoreSession = StoreSession(maxPerFile: nat, emails: seq<EmailData>)

  /** The directory as the sessions left it, each working on what the one before left. */
  ghost predicate LeftBy(sessions: seq<StoreSession>, disk: map<string, ParquetFile>) {
    if sessions == [] then disk == NO_FILES
    else exists before: map<string, ParquetFile> ::
      LeftBy(sessions[..|sessions| - 1], before)
      && AddedTo(AW.STEM, before, FinalFiles(Last(sessions).maxPerFile, Last(sessions).emails), disk)
  }

  function FilesOf(sessions: seq<StoreSession>): seq<ParquetFile> {
    if sessions == [] then []
    else FilesOf(sessions[..|sessions| - 1]) + FinalFiles(Last(sessions).maxPerFile, Last(sessions).emails)
  }

  function ArchivedIn(sessions: seq<StoreSession>): seq<EmailData> {
    if sessions == [] then [] else ArchivedIn(sessions[..|sessions| - 1]) + Last(sessions).emails
  }

  lemma {:induction false} AllRowsConcat(a: seq<ParquetFile>, b: seq<ParquetFile>)
    ensures AllRows(a + b) == AllRows(a) + AllRows(b)
  {
    hide Rows;
    if b == [] {
      assert a + b == a;
    } else {
      AllRowsConcat(a, b[..|b| - 1]);
      assert (a + b)[..|a + b| - 1] == a + b[..|b| - 1];
    }
  }

  lemma {:induction false} DiskConcat(stem: string, base: map<string, ParquetFile>, first: nat,
                                      a: seq<ParquetFile>, b: seq<ParquetFile>)
    ensures Disk(stem, Disk(stem, base, first, a), first + |a|, b) == Disk(stem, base, first, a + b)
  {
    hide FileName;
    if b == [] {
      assert a + b == a;
    } else {
      DiskConcat(stem, base, first, a, b[..|b| - 1]);
      assert (a + b)[..|a + b| - 1] == a + b[..|b| - 1];
    }
  }

  lemma EmptyDirectory(stem: string)
    ensures IsNextIndex(stem, NO_FILES.Keys, 0)
  {
  }

  lemma NothingStored()
    ensures Disk(AW.STEM, NO_FILES, 0, []) == NO_FILES && AllRows([]) == []
  {
  }

  /** No session overwrites another: the directory holds all files of all sessions under
      consecutive indices from 0, and their rows in index order are the archived emails in order. */
  lemma {:induction false} SessionsAccumulate(sessions: seq<StoreSession>, disk: map<string, ParquetFile>)
    requires LeftBy(sessions, disk)
    ensures disk == Disk(AW.STEM, NO_FILES, 0, FilesOf(sessions))
    ensures AllRows(FilesOf(sessions)) == ArchivedIn(sessions)
  {
    hide FinalFiles, FileName, IsNextIndex, Disk, AllRows, GoodFile;
    NothingStored();
    if sessions != [] {
      var older, last := sessions[..|sessions| - 1], Last(sessions);
      var before: map<string, ParquetFile> :| LeftBy(older, before)
        && AddedTo(AW.STEM, before, FinalFiles(last.maxPerFile, last.emails), disk);
      SessionsAccumulate(older, before);
      EmptyDirectory(AW.STEM);
      DiskNextIndex(AW.STEM, NO_FILES, 0, FilesOf(older));
      var first: nat :| IsNextIndex(AW.STEM, before.Keys, first)
        && disk == Disk(AW.STEM, before, first, FinalFiles(last.maxPerFile, last.emails));
      NextIndexUnique(AW.STEM, before.Keys, first, |FilesOf(older)|);
      DiskConcat(AW.STEM, NO_FILES, 0, FilesOf(older), FinalFiles(last.maxPerFile, last.emails));
      Conservation(last.maxPerFile, last.emails);
      AllRowsConcat(FilesOf(older), FinalFiles(last.maxPerFile, last.emails));
    }
  }

  /** The life of one archive writer in Parquet mode is one such session. */
  lemma WriterIsSession(m: nat, yaml: ProgressFile.Yaml, record: (string, nat) -> string, emails: seq<EmailData>,
                        before: Contents, after: Contents, sessions: seq<StoreSession>)
    requires AW.Stored(AW.Parquet(m), yaml, record, emails, before, after) && LeftBy(sessions, before.parquet)
    ensures LeftBy(sessions + [StoreSession(m, emails)], after.parquet)
  {
    hide FinalFiles, AddedTo, AW.FinalProgress;
    var all := sessions + [StoreSession(m, emails)];
    assert all[..|all| - 1] == sessions;
    assert LeftBy(all[..|all| - 1], before.parquet)
      && AddedTo(AW.STEM, before.parquet, FinalFiles(Last(all).maxPerFile, Last(all).emails), after.parquet);
  }

  lemma ArchivedInPush(sessions: seq<StoreSession>, s: StoreSession)
    ensures ArchivedIn(sessions + [s]) == ArchivedIn(sessions) + s.emails
  {
    assert (sessions + [s])[..|sessions|] == sessions;
  }

  lemma FileCount(sessions: seq<StoreSession>, disk: map<string, ParquetFile>)
    requires LeftBy(sessions, disk)
    ensures |disk| == |FilesOf(sessions)|
  {
    hide LeftBy, FileName, IsNextIndex, Disk;
    SessionsAccumulate(sessions, disk);
    EmptyDirectory(AW.STEM);
    DiskContents(AW.STEM, NO_FILES, 0, FilesOf(sessions));
  }

  /** The names in the directory are those of as many files in a row. */
  lemma {:induction false} DiskKeys(stem: string, files: seq<ParquetFile>)
    ensures multiset(Disk(stem, NO_FILES, 0, files).Keys) == multiset(NameRange(stem, 0, |files|))
  {
    hide FileName, IndexOf, IsNextIndex;
    if files != [] {
      var n := |files| - 1;
      var disk := Disk(stem, NO_FILES, 0, files[..n]);
      DiskKeys(stem, files[..n]);
      EmptyDirectory(stem);
      DiskNextIndex(stem, NO_FILES, 0, files[..n]);
      NextIndexIsFree(stem, disk.Keys, n);
      assert Disk(stem, NO_FILES, 0, files).Keys == disk.Keys + {FileName(stem, n)};
      assert NameRange(stem, 0, n + 1) == NameRange(stem, 0, n) + [FileName(stem, n)];
    }
  }

  lemma DirectoryKeys(sessions: seq<StoreSession>, disk: map<string, ParquetFile>)
    requires LeftBy(sessions, disk)
    ensures multiset(disk.Keys) == multiset(NameRange(AW.STEM, 0, |FilesOf(sessions)|))
  {
    hide LeftBy, Disk, NameRange;
    SessionsAccumulate(sessions, disk);
    DiskKeys(AW.STEM, FilesOf(sessions));
  }

  /** Every archived email is a row of some file. */
  lemma RowIsInFile(sessions: seq<StoreSession>, disk: map<string, ParquetFile>, i: nat) returns (name: string)
    requires LeftBy(sessions, disk) && i < |ArchivedIn(sessions)|
    ensures name in disk && ArchivedIn(sessions)[i] in Rows(disk[name])
  {
    hide LeftBy, IsNextIndex, Disk, Rows, AllRows, FileName;
    SessionsAccumulate(sessions, disk);
    EmptyDirectory(AW.STEM);
    DiskContents(AW.STEM, NO_FILES, 0, FilesOf(sessions));
    var f := FileOfRow(FilesOf(sessions), i);
    assert HasFile(AW.STEM, disk, 0 + f, FilesOf(sessions)[f]);
    name := FileName(AW.STEM, f);
  }

  lemma {:induction false} FileOfRow(files: seq<ParquetFile>, i: nat) returns (f: nat)
    requires i < |AllRows(files)|
    ensures f < |files| && AllRows(files)[i] in Rows(files[f])
  {
    hide Rows;
    f := |files| - 1;
    var older := files[..f];
    if i < |AllRows(older)| {
      f := FileOfRow(older, i);
    }
  }

  // ----- the order in which the parser takes the files

  ghost predicate Ascending(names: seq<string>) {
    forall i, j :: 0 <= i < j < |names| ==> LexLeq(names[i], names[j])
  }

  function SortNames(names: seq<string>): seq<string> {
    SortBy(LexLeq, names)
  }

  lemma SortNamesSorted(names: seq<string>)
    ensures Ascending(SortNames(names)) && multiset(SortNames(names)) == multiset(names)
  {
    hide LexLeq;
    forall a, b, c: string ensures LexLeq(a, b) || LexLeq(b, a)
      ensures LexLeq(a, b) && LexLeq(b, c) ==> LexLeq(a, c)
    {
      LexTotal(a, b);
      if LexLeq(a, b) && LexLeq(b, c) {
        LexTransitive(a, b, c);
      }
    }
    SortByKeeps(LexLeq, names);
    SortByInOrder(LexLeq, names, names);
  }

  lemma FirstIsLeast(a: seq<string>, name: string)
    requires Ascending(a) && name in multiset(a)
    ensures LexLeq(a[0], name)
  {
    hide LexLeq;
    var i :| 0 <= i < |a| && a[i] == name;
    if i == 0 {
      LexTotal(name, name);
    }
  }

  lemma {:induction false} AscendingUnique(a: seq<string>, b: seq<string>)
    requires Ascending(a) && Ascending(b) && multiset(a) == multiset(b)
    ensures a == b
  {
    hide LexLeq;
    assert |multiset(a)| == |a| && |multiset(b)| == |b|;
    if a != [] {
      FirstIsLeast(a, b[0]);
      FirstIsLeast(b, a[0]);
      LexAntisymmetric(a[0], b[0]);
      DropFirst(a);
      DropFirst(b);
      AscendingUnique(a[1..], b[1..]);
    }
  }

  /** Up to index 999 file names sort by index. */
  lemma NamesSortByIndex(stem: string, i: nat, j: nat)
    requires i <= j <= 999
    ensures LexLeq(FileName(stem, i), FileName(stem, j))
  {
    var a, b := Decimal.Pad(i, 3), Decimal.Pad(j, 3);
    Decimal.ThreeDigits(i);
    Decimal.ThreeDigits(j);
    Decimal.ValueOfPad(i, 3);
    Decimal.ValueOfPad(j, 3);
    Decimal.SameLengthOrder(a, b);
    LexAppend(a, b, PARQUET_SUFFIX);
    LexPrefix(stem + "_", a + PARQUET_SUFFIX, b + PARQUET_SUFFIX);
    assert FileName(stem, i) == (stem + "_") + (a + PARQUET_SUFFIX);
    assert FileName(stem, j) == (stem + "_") + (b + PARQUET_SUFFIX);
  }

  /** Equal-length texts keep their order when the same text is appended to both. */
  lemma {:induction false} LexAppend(a: string, b: string, t: string)
    requires |a| == |b| && LexLeq(a, b)
    ensures LexLeq(a + t, b + t)
  {
    if a == [] {
      assert a + t == t == b + t;
      LexTotal(t, t);
    } else {
      assert (a + t)[1..] == a[1..] + t && (b + t)[1..] == b[1..] + t;
      if a[0] == b[0] {
        LexAppend(a[1..], b[1..], t);
      }
    }
  }

  /** The next index needs a fourth digit, and its name sorts before that of 999. */
  lemma ThousandSortsEarly(stem: string)
    ensures !LexLeq(FileName(stem, 999), FileName(stem, 1000))
  {
    var a, b := Decimal.Pad(999, 3) + PARQUET_SUFFIX, Decimal.Pad(1000, 3) + PARQUET_SUFFIX;
    assert Decimal.Render(999) == Decimal.Render(99) + [Decimal.Digit(9)];
    assert Decimal.Render(99) == Decimal.Render(9) + [Decimal.Digit(9)];
    assert Decimal.Render(1000) == Decimal.Render(100) + [Decimal.Digit(0)];
    assert Decimal.Render(100) == Decimal.Render(10) + [Decimal.Digit(0)];
    assert Decimal.Render(10) == Decimal.Render(1) + [Decimal.Digit(0)];
    assert a[0] == '9' && b[0] == '1';
    LexPrefix(stem + "_", a, b);
    assert FileName(stem, 999) == (stem + "_") + a;
    assert FileName(stem, 1000) == (stem + "_") + b;
  }

  /** `count` files in a row sort in the order of their indices exactly when there are at most 1000. */
  lemma OrderIffAtMostThousand(stem: string, count: nat)
    ensures Ascending(NameRange(stem, 0, count)) <==> count <= 1000
  {
    hide FileName, LexLeq;
    if count <= 1000 {
      forall i, j | 0 <= i < j < count ensures LexLeq(NameRange(stem, 0, count)[i], NameRange(stem, 0, count)[j]) {
        NamesSortByIndex(stem, i, j);
      }
    } else {
      ThousandSortsEarly(stem);
      assert NameRange(stem, 0, count)[999] == FileName(stem, 999);
      assert NameRange(stem, 0, count)[1000] == FileName(stem, 1000);
    }
  }

  /** The names `first`, `first + 1`, ... of `count` consecutive files. */
  function NameRange(stem: string, first: nat, count: nat): (names: seq<string>)
    ensures |names| == count
    ensures forall i :: 0 <= i < count ==> names[i] == FileName(stem, first + i)
  {
    seq(count, i requires 0 <= i => FileName(stem, first + i))
  }

  /** Whatever order the directory lists the files in, the parser takes them in index order if and
      only if there are at most 1000 of them. */
  lemma TakenInIndexOrderIff(stem: string, count: nat, listing: seq<string>)
    requires multiset(listing) == multiset(NameRange(stem, 0, count))
    ensures SortNames(listing) == NameRange(stem, 0, count) <==> count <= 1000
  {
    hide NameRange;
    SortNamesSorted(listing);
    OrderIffAtMostThousand(stem, count);
    if count <= 1000 {
      AscendingUnique(SortNames(listing), NameRange(stem, 0, count));
    }
  }

  // ----- collecting the files of a list

  lemma {:induction false} DotBeforeExtension(a: string, b: string)
    requires a != "" && '.' !in b
    ensures DotOf(a + "." + b) == Some(|a|)
  {
    var s := a + "." + b;
    if b == "" {
      assert s[|s| - 1] == '.';
    } else {
      var shorter := b[..|b| - 1];
      assert s[..|s| - 1] == a + "." + shorter;
      DotBeforeExtension(a, shorter);
      assert s[|s| - 1] == b[|b| - 1] && b[|b| - 1] in b;
    }
  }

  predicate IsEmailFile(name: string) {
    Extension(name) == "eml" || Extension(name) == "parquet"
  }

  function EmailNames(entries: seq<(string, bool)>): seq<string> {
    if entries == [] then []
    else
      var older, (name, isFile) := EmailNames(entries[..|entries| - 1]), Last(entries);
      if isFile && IsEmailFile(name) then older + [name] else older
  }

  /** Each file with such an extension is taken as often as it is listed, and nothing else. */
  lemma {:induction false} TakenExactly(entries: seq<(string, bool)>, name: string)
    ensures multiset(EmailNames(entries))[name]
         == if Extension(name) in ["eml", "parquet"] then multiset(entries)[(name, true)] else 0
  {
    hide Extension, EmailNames;
    if entries == [] {
      NothingTaken();
    } else {
      var older, last := entries[..|entries| - 1], Last(entries);
      TakenExactly(older, name);
      EmailNamesPush(older, last);
      assert entries == older + [last];
    }
  }

  lemma NothingTaken()
    ensures EmailNames([]) == []
  {
  }

  lemma EmailNamesPush(older: seq<(string, bool)>, last: (string, bool))
    ensures EmailNames(older + [last])
         == EmailNames(older) + if last.1 && IsEmailFile(last.0) then [last.0] else []
  {
    hide IsEmailFile;
    assert (older + [last])[..|older|] == older;
  }

  /** Extensions count in upper or lower case; a dot in front does not begin one. */
  lemma ExtensionForms(stem: string, ext: string)
    requires stem != "" && '.' !in ext
    ensures IsEmailFile(stem + "." + ext) <==> Lower(ext) == "eml" || Lower(ext) == "parquet"
    ensures !IsEmailFile(".eml") && !IsEmailFile(".parquet") && ('.' !in stem ==> !IsEmailFile(stem))
  {
    hide DotOf, Lower;
    ExtensionIs(stem, ext);
    LeadingDot("eml");
    LeadingDot("parquet");
    assert "." + "eml" == ".eml" && "." + "parquet" == ".parquet";
    NoDot(stem);
  }

  lemma {:induction false} LeadingDot(ext: string)
    requires '.' !in ext
    ensures DotOf("." + ext) == None && Extension("." + ext) == ""
  {
    if ext != "" {
      var shorter := ext[..|ext| - 1];
      assert ("." + ext)[..|ext|] == "." + shorter && Last("." + ext) == Last(ext) && Last(ext) in ext;
      LeadingDot(shorter);
    }
  }

  lemma {:induction false} NoDot(name: string)
    ensures '.' !in name ==> DotOf(name) == None && Extension(name) == ""
  {
    if |name| > 1 && '.' !in name {
      assert Last(name) in name;
      NoDot(name[..|name| - 1]);
    }
  }

  lemma ExtensionIs(stem: string, ext: string)
    requires stem != "" && '.' !in ext
    ensures Extension(stem + "." + ext) == Lower(ext) && Stem(stem + "." + ext) == stem
  {
    DotBeforeExtension(stem, ext);
    assert (stem + "." + ext)[|stem| + 1..] == ext;
  }

  /** The `.eml` and `.parquet` files among the directory entries, sorted by name. */
  method CollectEmailFiles(entries: seq<(string, bool)>) returns (files: seq<string>)
    ensures Ascending(files) && multiset(files) == multiset(EmailNames(entries))
    ensures files == SortNames(EmailNames(entries))
  {
    files := [];
    for i := 0 to |entries|
      invariant files == EmailNames(entries[..i])
    {
      assert entries[..i + 1][..i] == entries[..i];
      var (name, isFile) := entries[i];
      if isFile && IsEmailFile(name) {
        files := files + [name];
      }
    }
    assert entries[..|entries|] == entries;
    SortNamesSorted(files);
    files := SortNames(files);
  }

  // ----- reading back

  lemma FileNameExtension(stem: string, i: nat)
    ensures Extension(FileName(stem, i)) == "parquet"
  {
    var base := stem + "_" + Decimal.Pad(i, 3);
    assert FileName(stem, i) == base + "." + "parquet";
    DotBeforeExtension(base, "parquet");
    assert FileName(stem, i)[|base| + 1..] == "parquet";
    assert Lower("parquet") == "parquet";
  }

  function AllSome<T>(xs: seq<T>): (r: seq<Option<T>>)
    ensures |r| == |xs| && forall i :: 0 <= i < |xs| ==> r[i] == Some(xs[i])
  {
    seq(|xs|, i requires 0 <= i < |xs| => Some(xs[i]))
  }

  /** Each stored file decodes to some sequence of batches, empty ones allowed, whose rows together
      are the rows written; how the decoder cuts them is left open. */
  ghost predicate Decodes(disk: map<string, ParquetFile>, contents: map<string, FileContent>) {
    forall n :: n in disk ==> n in contents && DecodesTo(contents[n], Rows(disk[n]))
  }

  ghost predicate DecodesTo(content: FileContent, rows: seq<EmailData>) {
    exists batches: seq<Batch> :: content == RowBatches(Some(AllSome(batches))) && Flatten(batches) == rows
  }

  lemma {:induction false} ItemsOfGoodBatches(batches: seq<Batch>)
    ensures ItemsOfBatches(AllSome(batches)) == Oks(Flatten(batches))
  {
    if batches != [] {
      assert AllSome(batches)[1..] == AllSome(batches[1..]);
      ItemsOfGoodBatches(batches[1..]);
      OksConcat(batches[0], Flatten(batches[1..]));
    }
  }

  lemma ItemsOfStoredFile(stem: string, i: nat, disk: map<string, ParquetFile>, contents: map<string, FileContent>)
    requires Decodes(disk, contents) && FileName(stem, i) in disk
    ensures ItemsOfFile(FileName(stem, i), contents) == Oks(Rows(disk[FileName(stem, i)]))
  {
    hide FileName, Extension;
    var name := FileName(stem, i);
    FileNameExtension(stem, i);
    var batches: seq<Batch> :| contents[name] == RowBatches(Some(AllSome(batches)))
      && Flatten(batches) == Rows(disk[name]);
    ItemsOfGoodBatches(batches);
  }

  lemma {:induction false} ItemsConcat(a: seq<string>, b: seq<string>, contents: map<string, FileContent>)
    ensures ItemsOfFiles(a + b, contents) == ItemsOfFiles(a, contents) + ItemsOfFiles(b, contents)
  {
    hide ItemsOfFile;
    if a == [] {
      assert a + b == b;
    } else {
      assert (a + b)[1..] == a[1..] + b;
      ItemsConcat(a[1..], b, contents);
    }
  }

  /** The last of several stored files joins the directory of the others under a name of its own. */
  lemma LastOnDisk(files: seq<ParquetFile>)
    requires files != []
    ensures var n := |files| - 1;
      var older, name := Disk(AW.STEM, NO_FILES, 0, files[..n]), FileName(AW.STEM, n);
      name !in older && Disk(AW.STEM, NO_FILES, 0, files) == older[name := files[n]]
  {
    hide FileName, IndexOf, IsNextIndex;
    var n := |files| - 1;
    EmptyDirectory(AW.STEM);
    DiskNextIndex(AW.STEM, NO_FILES, 0, files[..n]);
    NextIndexIsFree(AW.STEM, Disk(AW.STEM, NO_FILES, 0, files[..n]).Keys, n);
  }

  lemma DecodesWithout(
    disk: map<string, ParquetFile>, name: string, file: ParquetFile, contents: map<string, FileContent>)
    requires Decodes(disk[name := file], contents) && name !in disk
    ensures Decodes(disk, contents)
  {
    hide DecodesTo, Rows;
    forall k | k in disk ensures k in contents && DecodesTo(contents[k], Rows(disk[k])) {
      assert k in disk[name := file] && disk[name := file][k] == disk[k];
    }
  }

  /** Its items, and the directory without it. */
  lemma LastStoredFile(files: seq<ParquetFile>, contents: map<string, FileContent>)
    requires Decodes(Disk(AW.STEM, NO_FILES, 0, files), contents) && files != []
    ensures var n := |files| - 1;
      && Decodes(Disk(AW.STEM, NO_FILES, 0, files[..n]), contents)
      && ItemsOfFile(FileName(AW.STEM, n), contents) == Oks(Rows(files[n]))
  {
    hide FileName, ItemsOfFile, Decodes, Rows, Oks, Disk;
    var n := |files| - 1;
    LastOnDisk(files);
    DecodesWithout(Disk(AW.STEM, NO_FILES, 0, files[..n]), FileName(AW.STEM, n), files[n], contents);
    ItemsOfStoredFile(AW.STEM, n, Disk(AW.STEM, NO_FILES, 0, files), contents);
  }

  lemma {:induction false} ItemsInIndexOrder(files: seq<ParquetFile>, contents: map<string, FileContent>)
    requires Decodes(Disk(AW.STEM, NO_FILES, 0, files), contents)
    ensures ItemsOfFiles(NameRange(AW.STEM, 0, |files|), contents) == Oks(AllRows(files))
  {
    hide FileName, ItemsOfFile, Decodes, Disk, Rows, LexLeq;
    if files != [] {
      var n, older := |files| - 1, files[..|files| - 1];
      LastStoredFile(files, contents);
      ItemsInIndexOrder(older, contents);
      assert NameRange(AW.STEM, 0, n + 1) == NameRange(AW.STEM, 0, n) + [FileName(AW.STEM, n)];
      ItemsConcat(NameRange(AW.STEM, 0, n), [FileName(AW.STEM, n)], contents);
      OnlyFile(FileName(AW.STEM, n), contents);
      OksConcat(AllRows(older), Rows(files[n]));
    }
  }

  lemma OnlyFile(name: string, contents: map<string, FileContent>)
    ensures ItemsOfFiles([name], contents) == ItemsOfFile(name, contents)
  {
    var rest := [name][1..];
    assert rest == [];
  }

  /** The round trip: up to 1000 files, the parser's iterator over the directory of any number of
      sessions yields exactly the archived emails in archive order. */
  lemma RoundTrip(sessions: seq<StoreSession>, disk: map<string, ParquetFile>, contents: map<string, FileContent>,
                  listing: seq<string>)
    requires LeftBy(sessions, disk) && Decodes(disk, contents)
    requires multiset(listing) == multiset(disk.Keys) && |disk| <= 1000
    ensures ItemsOfFiles(SortNames(listing), contents) == Oks(ArchivedIn(sessions))
  {
    hide Disk, NameRange, SortNames, LeftBy, Decodes;
    SessionsAccumulate(sessions, disk);
    DirectoryKeys(sessions, disk);
    FileCount(sessions, disk);
    TakenInIndexOrderIff(AW.STEM, |FilesOf(sessions)|, listing);
    ItemsInIndexOrder(FilesOf(sessions), contents);
  }

  /** Taking one file out of the order takes out its items. */
  lemma ItemsWithout(b: seq<string>, k: nat, contents: map<string, FileContent>)
    requires k < |b|
    ensures multiset(b[..k] + b[k + 1..]) == multiset(b) - multiset{b[k]}
    ensures multiset(ItemsOfFiles(b, contents))
         == multiset(ItemsOfFile(b[k], contents)) + multiset(ItemsOfFiles(b[..k] + b[k + 1..], contents))
  {
    hide ItemsOfFile, ItemsOfFiles;
    var left, right := b[..k], b[k + 1..];
    assert b == left + ([b[k]] + right);
    ItemsConcat(left, [b[k]] + right, contents);
    ItemsConcat([b[k]], right, contents);
    ItemsConcat(left, right, contents);
    OnlyFile(b[k], contents);
  }

  lemma {:induction false} ItemsMultiset(a: seq<string>, b: seq<string>, contents: map<string, FileContent>)
    requires multiset(a) == multiset(b)
    ensures multiset(ItemsOfFiles(a, contents)) == multiset(ItemsOfFiles(b, contents))
    decreases |a|
  {
    hide ItemsOfFile, ItemsOfFiles;
    assert |multiset(a)| == |a| && |multiset(b)| == |b|;
    if a == [] {
      assert b == [];
    } else {
      assert a[0] in multiset(b);
      var k :| 0 <= k < |b| && b[k] == a[0];
      ItemsWithout(a, 0, contents);
      ItemsWithout(b, k, contents);
      ItemsMultiset(a[..0] + a[1..], b[..k] + b[k + 1..], contents);
    }
  }

  /** With any number of files nothing is lost, added or changed; only the order may differ. */
  lemma RoundTripAsMultiset(sessions: seq<StoreSession>, disk: map<string, ParquetFile>,
                            contents: map<string, FileContent>,
                            listing: seq<string>)
    requires LeftBy(sessions, disk) && Decodes(disk, contents)
    requires multiset(listing) == multiset(disk.Keys)
    ensures multiset(ItemsOfFiles(SortNames(listing), contents)) == multiset(Oks(ArchivedIn(sessions)))
  {
    hide Disk, NameRange, SortNames, LeftBy, Decodes, ItemsOfFiles;
    SessionsAccumulate(sessions, disk);
    DirectoryKeys(sessions, disk);
    SortNamesSorted(listing);
    ItemsMultiset(SortNames(listing), NameRange(AW.STEM, 0, |FilesOf(sessions)|), contents);
    ItemsInIndexOrder(FilesOf(sessions), contents);
  }
}
