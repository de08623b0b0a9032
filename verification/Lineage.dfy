/** The lineage file: a YAML stream the archiver appends to and the parser splits again. */
module Lineage {
  import opened Prelude
  import opened Text

  const DOCUMENT_MARK := "---\n"
  const SEPARATOR := "\n---\n"

  /** A separator line goes before every record but the first of the file. */
  function Append(file: string, record: string): string {
    (if file != "" then file + DOCUMENT_MARK else file) + record
  }

  function AppendAll(file: string, records: seq<string>): string {
    if records == [] then file else Append(AppendAll(file, records[..|records| - 1]), Last(records))
  }

  /** The non-blank parts between separators, trimmed. */
  function Documents(content: string): seq<string> {
    NonBlank(Split(content, SEPARATOR))
  }

  function NonBlank(parts: seq<string>): seq<string> {
    if parts == [] then []
    else (if Trim(parts[0]) == "" then [] else [Trim(parts[0])]) + NonBlank(parts[1..])
  }

  /** A rendered record: it ends its last line and is not blank. */
  predicate Rendered(record: string) {
    EndsWith(record, "\n") && Trim(record) != ""
  }

  function Trimmed(records: seq<string>): seq<string> {
    seq(|records|, i requires 0 <= i < |records| => Trim(records[i]))
  }

  /** The whole stream written front to back. */
  function Stream(records: seq<string>): string {
    if records == [] then ""
    else if |records| == 1 then records[0]
    else records[0] + DOCUMENT_MARK + Stream(records[1..])
  }

  lemma {:induction false} StreamSnoc(records: seq<string>, record: string)
    requires records != []
    ensures Stream(records + [record]) == Stream(records) + DOCUMENT_MARK + record
  {
    if |records| == 1 {
      assert (records + [record])[1..] == [record];
    } else {
      assert (records + [record])[1..] == records[1..] + [record];
      StreamSnoc(records[1..], record);
    }
  }

  lemma {:induction false} AppendAllIsStream(records: seq<string>)
    requires forall i :: 0 <= i < |records| ==> records[i] != ""
    ensures AppendAll("", records) == Stream(records)
    ensures records != [] ==> Stream(records) != ""
  {
    if records != [] {
      var older := records[..|records| - 1];
      AppendAllIsStream(older);
      assert older + [Last(records)] == records;
      if older != [] {
        StreamSnoc(older, Last(records));
      }
    }
  }

  lemma TrimEndIgnoresNewline(t: string)
    ensures TrimEnd(t + "\n") == TrimEnd(t)
  {
    assert (t + "\n")[..|t|] == t;
  }

  lemma TrimIgnoresNewline(body: string)
    ensures Trim(body + "\n") == Trim(body)
  {
    var n := LeadingWhitespace(body);
    var s := body + "\n";
    if n < |body| {
      assert s[..n] == body[..n];
      LeadingWhitespaceIs(s, n);
      assert s[n..] == body[n..] + "\n";
      TrimEndIgnoresNewline(body[n..]);
    } else {
      assert body[..n] == body && s[..|s|] == s;
      LeadingWhitespaceIs(s, |s|);
    }
  }

  /** A separator found within `body + "\n---"` lies within `body + "\n"` already. */
  lemma SeparatorStaysInside(body: string)
    requires !Contains(body + "\n", SEPARATOR)
    ensures !Contains(body + SEPARATOR[..4], SEPARATOR)
  {
    var s, r := body + SEPARATOR[..4], body + "\n";
    forall i | MatchesAt(s, SEPARATOR, i) ensures MatchesAt(r, SEPARATOR, i) {
      assert s[i + 4] == s[i..i + 5][4] == '\n';
      assert i + 4 <= |body|;
      assert r[i..i + 5] == s[i..i + 5];
    }
  }

  lemma SplitSingle(record: string)
    requires !Contains(record, SEPARATOR) && Trim(record) != ""
    ensures Documents(record) == [Trim(record)]
  {
    hide Trim;
    var only := [record];
    assert Split(record, SEPARATOR) == only && only[1..] == [];
    assert NonBlank(only) == [Trim(record)] + NonBlank(only[1..]);
  }

  lemma SplitStep(body: string, tail: string)
    requires !Contains(body + "\n", SEPARATOR) && Trim(body + "\n") != ""
    ensures Documents(body + SEPARATOR + tail) == [Trim(body + "\n")] + Documents(tail)
  {
    hide Trim, Contains, Find;
    SeparatorStaysInside(body);
    SplitHead(body, SEPARATOR, tail);
    TrimIgnoresNewline(body);
    var parts := [body] + Split(tail, SEPARATOR);
    assert parts[1..] == Split(tail, SEPARATOR);
  }

  /** When the first record has no separator line inside, the split peels exactly it off. */
  lemma SplitFirstRecord(records: seq<string>)
    requires records != [] && Rendered(records[0]) && !Contains(records[0], SEPARATOR)
    ensures Documents(Stream(records)) == [Trim(records[0])] + Documents(Stream(records[1..]))
  {
    hide Trim, Contains, Documents;
    var r, rest := records[0], records[1..];
    var body := r[..|r| - 1];
    assert r == body + "\n";
    if rest == [] {
      SplitSingle(r);
      BlankDocuments();
    } else {
      assert Stream(records) == body + SEPARATOR + Stream(rest);
      SplitStep(body, Stream(rest));
    }
  }

  lemma BlankDocuments()
    ensures Documents("") == []
  {
    var only := [""];
    assert Split("", SEPARATOR) == only && only[1..] == [];
    assert Trim("") == "";
  }

  // ----- the converse: counting characters that trimming keeps

  function Weight(s: string): nat {
    if s == [] then 0 else Weight(s[..|s| - 1]) + if IsWhitespace(s[|s| - 1]) then 0 else 1
  }

  lemma {:induction false} WeightConcat(a: string, b: string)
    ensures Weight(a + b) == Weight(a) + Weight(b)
  {
    if b == [] {
      assert a + b == a;
    } else {
      assert (a + b)[..|a + b| - 1] == a + b[..|b| - 1];
      WeightConcat(a, b[..|b| - 1]);
    }
  }

  lemma {:induction false} WeightOfWhitespace(s: string)
    ensures Weight(s) == 0 <==> AllWhitespace(s)
  {
    if s != [] {
      var t := s[..|s| - 1];
      WeightOfWhitespace(t);
      assert forall i :: 0 <= i < |t| ==> t[i] == s[i];
    }
  }

  lemma WeightOfTrim(s: string)
    ensures Weight(Trim(s)) == Weight(s)
    ensures Trim(s) == "" <==> Weight(s) == 0
  {
    hide Weight, IsWhitespace, LeadingWhitespace, TrimmedEnd;
    var n := LeadingWhitespace(s);
    var t := s[n..];
    var m := TrimmedEnd(t);
    assert s == s[..n] + t && t == t[..m] + t[m..];
    WeightConcat(s[..n], t);
    WeightConcat(t[..m], t[m..]);
    WeightOfWhitespace(s[..n]);
    WeightOfWhitespace(t[m..]);
    WeightOfWhitespace(t[..m]);
  }

  lemma WeightOfMarks()
    ensures Weight(SEPARATOR) == 3 && Weight(DOCUMENT_MARK) == 3
  {
    assert SEPARATOR == "\n-" + "--\n";
    assert SEPARATOR[..4] == "\n---" && "\n---"[..3] == "\n--" && "\n--"[..2] == "\n-" && "\n-"[..1] == "\n";
    assert DOCUMENT_MARK[..3] == "---" && "---"[..2] == "--" && "--"[..1] == "-";
  }

  function TotalWeight(parts: seq<string>): nat {
    if parts == [] then 0 else Weight(parts[0]) + TotalWeight(parts[1..])
  }

  lemma {:induction false} WeightOfSplit(s: string)
    ensures TotalWeight(Split(s, SEPARATOR)) + 3 * (|Split(s, SEPARATOR)| - 1) == Weight(s)
    decreases |s|
  {
    hide Weight;
    var r := Find(s, SEPARATOR);
    if r.Some? {
      var u, v := s[..r.value], s[r.value + 5..];
      assert s == u + (SEPARATOR + v);
      WeightConcat(u, SEPARATOR + v);
      WeightConcat(SEPARATOR, v);
      WeightOfMarks();
      WeightOfSplit(v);
      assert ([u] + Split(v, SEPARATOR))[1..] == Split(v, SEPARATOR);
    }
  }

  lemma {:induction false} WeightOfNonBlank(parts: seq<string>)
    ensures TotalWeight(NonBlank(parts)) == TotalWeight(parts)
    ensures |NonBlank(parts)| <= |parts|
  {
    hide Weight, Trim;
    if parts != [] {
      WeightOfTrim(parts[0]);
      WeightOfNonBlank(parts[1..]);
      if Trim(parts[0]) != "" {
        assert NonBlank(parts)[1..] == NonBlank(parts[1..]);
      } else {
        assert NonBlank(parts) == NonBlank(parts[1..]);
      }
    }
  }

  lemma {:induction false} WeightOfStream(records: seq<string>)
    requires records != []
    ensures Weight(Stream(records)) == TotalWeight(Trimmed(records)) + 3 * (|records| - 1)
  {
    hide Weight, Trim;
    var r, rest := records[0], records[1..];
    WeightOfTrim(r);
    assert Trimmed(records)[1..] == Trimmed(rest);
    if rest != [] {
      WeightConcat(r + DOCUMENT_MARK, Stream(rest));
      WeightConcat(r, DOCUMENT_MARK);
      WeightOfMarks();
      WeightOfStream(rest);
    }
  }

  /** The stream starts with its first record. */
  lemma StreamPrefix(records: seq<string>)
    requires records != []
    ensures StartsWith(Stream(records), records[0])
  {
  }

  /** A separator inside a front of the text is the first one of the text. */
  lemma FoundInside(r: string, s: string) returns (i: nat)
    requires StartsWith(s, r) && Contains(r, SEPARATOR)
    ensures Find(s, SEPARATOR) == Some(i) && i + 5 <= |r| && r == s[..i] + (SEPARATOR + r[i + 5..])
  {
    hide Find;
    var p :| MatchesAt(r, SEPARATOR, p);
    SliceOfSlice(s, 0, |r|, p, p + 5);
    assert MatchesAt(s, SEPARATOR, p);
    i := Find(s, SEPARATOR).value;
    SliceOfSlice(s, 0, |r|, i, i + 5);
    assert r[i..i + 5] == SEPARATOR && s[..i] == r[..i];
    assert r == r[..i] + (r[i..i + 5] + r[i + 5..]);
  }

  /** A separator line inside the first record either shortens the first document or loses one. */
  lemma InnerSeparatorShows(records: seq<string>)
    requires records != [] && Contains(records[0], SEPARATOR)
    ensures Documents(Stream(records)) != Trimmed(records)
  {
    hide Weight, Trim, Stream, Find, MatchesAt, Contains;
    var r, s := records[0], Stream(records);
    StreamPrefix(records);
    var i := FoundInside(r, s);
    var u, parts := s[..i], Split(s, SEPARATOR);
    assert parts[0] == u;
    WeightConcat(u, SEPARATOR + r[i + 5..]);
    WeightConcat(SEPARATOR, r[i + 5..]);
    WeightOfMarks();
    WeightOfTrim(u);
    WeightOfTrim(r);
    WeightOfSplit(s);
    WeightOfNonBlank(parts);
    WeightOfNonBlank(parts[1..]);
    WeightOfStream(records);
  }

  /** The lineage round trip, exactly: appending rendered records one by one and splitting the file
      again gives back those records in order if and only if none has a separator line inside. */
  lemma {:induction false} RoundTrip(records: seq<string>)
    requires forall i :: 0 <= i < |records| ==> Rendered(records[i])
    ensures Documents(Stream(records)) == Trimmed(records)
      <==> forall i :: 0 <= i < |records| ==> !Contains(records[i], SEPARATOR)
  {
    hide Documents, Trim, Contains;
    if records == [] {
      BlankDocuments();
    } else if Contains(records[0], SEPARATOR) {
      InnerSeparatorShows(records);
    } else {
      var rest := records[1..];
      SplitFirstRecord(records);
      RoundTrip(rest);
      assert Trimmed(records) == [Trim(records[0])] + Trimmed(rest);
      assert Trimmed(records)[1..] == Trimmed(rest);
      assert Documents(Stream(records))[1..] == Documents(Stream(rest));
      assert forall i :: 0 <= i < |rest| ==> records[i + 1] == rest[i];
      assert forall i :: 0 < i < |records| ==> records[i] == rest[i - 1];
    }
  }

  // ----- the parser's pass over all lists

  /** One entry of the archive directory: only a directory with a readable lineage file counts. */
  datatype Entry = Entry(isDir: bool, lineage: Option<string>, readable: bool)

  const ROW_GROUP_SIZE: nat := 50_000

  /** The documents that deserialise, in order; the others are skipped with a warning. */
  function ReadRecords<R>(parse: string -> Option<R>, documents: seq<string>): seq<R> {
    if documents == [] then []
    else (match parse(documents[0]) case None => [] case Some(r) => [r]) + ReadRecords(parse, documents[1..])
  }

  function RecordsOfEntry<R>(parse: string -> Option<R>, entry: Entry): seq<R> {
    if entry.isDir && entry.lineage.Some? && entry.readable then ReadRecords(parse, Documents(entry.lineage.value))
    else []
  }

  function RecordsOfEntries<R>(parse: string -> Option<R>, entries: seq<Entry>): seq<R> {
    if entries == [] then [] else RecordsOfEntry(parse, entries[0]) + RecordsOfEntries(parse, entries[1..])
  }

  /** What one part between separators contributes. */
  function RecordOfPart<R>(parse: string -> Option<R>, part: string): seq<R> {
    var trimmed := Trim(part);
    if trimmed == "" then [] else match parse(trimmed) case None => [] case Some(r) => [r]
  }

  lemma ReadRecordsStep<R>(parse: string -> Option<R>, parts: seq<string>)
    requires parts != []
    ensures ReadRecords(parse, NonBlank(parts))
      == RecordOfPart(parse, parts[0]) + ReadRecords(parse, NonBlank(parts[1..]))
  {
    hide Trim;
    if Trim(parts[0]) != "" {
      assert NonBlank(parts)[1..] == NonBlank(parts[1..]);
    } else {
      assert NonBlank(parts) == NonBlank(parts[1..]);
    }
  }

  lemma EntriesStep<R>(parse: string -> Option<R>, entries: seq<Entry>, i: nat, seen: seq<R>)
    requires i < |entries|
    ensures seen + RecordsOfEntries(parse, entries[i..])
         == (seen + RecordsOfEntry(parse, entries[i])) + RecordsOfEntries(parse, entries[i + 1..])
  {
    hide RecordsOfEntry;
    assert entries[i..][1..] == entries[i + 1..];
  }

  lemma PartsStep<R>(parse: string -> Option<R>, parts: seq<string>, j: nat, seen: seq<R>)
    requires j < |parts|
    ensures seen + ReadRecords(parse, NonBlank(parts[j..]))
         == (seen + RecordOfPart(parse, parts[j])) + ReadRecords(parse, NonBlank(parts[j + 1..]))
    ensures RecordOfPart(parse, parts[j]) == [] ==> seen + RecordOfPart(parse, parts[j]) == seen
  {
    hide RecordOfPart, NonBlank, ReadRecords;
    ReadRecordsStep(parse, parts[j..]);
    assert parts[j..][1..] == parts[j + 1..];
  }

  /** Full row groups written so far and the batch being filled hold the records seen so far. */
  ghost predicate Grouped<R>(groups: seq<seq<R>>, batch: seq<R>, total: nat, seen: seq<R>) {
    && (forall g :: g in groups ==> |g| == ROW_GROUP_SIZE)
    && |batch| < ROW_GROUP_SIZE
    && total == |Flatten(groups)|
    && Flatten(groups) + batch == seen
  }

  /** Adds a record to the batch and writes the batch as a row group once it is full. */
  method PushEntry<R>(groups: seq<seq<R>>, batch: seq<R>, total: nat, record: R, ghost seen: seq<R>)
    returns (groups': seq<seq<R>>, batch': seq<R>, total': nat)
    requires Grouped(groups, batch, total, seen)
    ensures Grouped(groups', batch', total', seen + [record])
  {
    groups', batch', total' := groups, batch + [record], total;
    if |batch'| >= ROW_GROUP_SIZE {
      FlattenPush(groups, batch');
      groups' := groups + [batch'];
      total' := total + |batch'|;
      batch' := [];
    }
  }

  /** The inner loop: the records of one lineage file join the batch in order. */
  method ParseContent<R>(content: string, parse: string -> Option<R>, groups: seq<seq<R>>, batch: seq<R>,
                         total: nat, ghost seen: seq<R>)
    returns (groups': seq<seq<R>>, batch': seq<R>, total': nat)
    requires Grouped(groups, batch, total, seen)
    ensures Grouped(groups', batch', total', seen + ReadRecords(parse, Documents(content)))
  {
    hide Split, Trim, Grouped, ReadRecords, NonBlank;
    groups', batch', total' := groups, batch, total;
    var parts := Split(content, SEPARATOR);
    ghost var now := seen;
    for j := 0 to |parts|
      invariant Grouped(groups', batch', total', now)
      invariant now + ReadRecords(parse, NonBlank(parts[j..])) == seen + ReadRecords(parse, NonBlank(parts))
    {
      PartsStep(parse, parts, j, now);
      var trimmed := Trim(parts[j]);
      if trimmed == "" {
        continue;
      }
      var record := parse(trimmed);
      if record.None? {
        continue;
      }
      groups', batch', total' := PushEntry(groups', batch', total', record.value, now);
      now := now + [record.value];
    }
    NothingParsed(parse, parts[|parts|..]);
    assert now == seen + ReadRecords(parse, Documents(content));
  }

  lemma NothingParsed<R>(parse: string -> Option<R>, parts: seq<string>)
    requires parts == []
    ensures ReadRecords(parse, NonBlank(parts)) == []
  {
  }

  /** Collects the records of every list into row groups. No file is created when there is none. */
  method ParseLineage<R>(entries: seq<Entry>, parse: string -> Option<R>)
    returns (writer: Option<seq<seq<R>>>, totalEntries: nat)
    ensures writer.None? <==> RecordsOfEntries(parse, entries) == []
    ensures writer.Some? ==> Flatten(writer.value) == RecordsOfEntries(parse, entries)
    ensures writer.Some? ==> forall i :: 0 <= i < |writer.value| - 1 ==> |writer.value[i]| == 50_000
    ensures writer.Some? ==> writer.value != [] && 1 <= |Last(writer.value)| <= 50_000
    ensures totalEntries == |RecordsOfEntries(parse, entries)|
  {
    hide RecordsOfEntries;
    var groups: seq<seq<R>> := [];
    var batch: seq<R> := [];
    totalEntries := 0;
    ghost var seen: seq<R> := [];
    for i := 0 to |entries|
      invariant Grouped(groups, batch, totalEntries, seen)
      invariant seen + RecordsOfEntries(parse, entries[i..]) == RecordsOfEntries(parse, entries)
    {
      hide Grouped, Documents;
      EntriesStep(parse, entries, i, seen);
      var entry := entries[i];
      if entry.isDir && entry.lineage.Some? && entry.readable {
        groups, batch, totalEntries := ParseContent(entry.lineage.value, parse, groups, batch, totalEntries, seen);
        seen := seen + RecordsOfEntry(parse, entry);
      }
    }
    NoEntriesLeft(parse, entries[|entries|..]);
    if batch != [] {
      FlattenPush(groups, batch);
      groups := groups + [batch];
      totalEntries := totalEntries + |batch|;
    }
    writer := if groups != [] then Some(groups) else None;
  }

  lemma NoEntriesLeft<R>(parse: string -> Option<R>, entries: seq<Entry>)
    requires entries == []
    ensures RecordsOfEntries(parse, entries) == []
  {
  }

  // ----- from the archiver's files to the row groups

  /** The lineage file of a list as the archiver writes it, with what its records mean; or an entry
      that is no list. */
  ghost predicate Written<R>(parse: string -> Option<R>, entry: Entry, records: seq<string>, values: seq<R>) {
    if entry.isDir && entry.lineage.Some? && entry.readable then
      && entry.lineage.value == AppendAll("", records) && |values| == |records|
      && forall j :: 0 <= j < |records| ==>
           Rendered(records[j]) && !Contains(records[j], SEPARATOR) && parse(Trim(records[j])) == Some(values[j])
    else
      values == []
  }

  lemma {:induction false} ReadAll<R>(parse: string -> Option<R>, documents: seq<string>, values: seq<R>)
    requires |documents| == |values| && forall j :: 0 <= j < |values| ==> parse(documents[j]) == Some(values[j])
    ensures ReadRecords(parse, documents) == values
  {
    if values != [] {
      ReadAll(parse, documents[1..], values[1..]);
      assert values == [values[0]] + values[1..];
    }
  }

  lemma EntryRead<R>(parse: string -> Option<R>, entry: Entry, records: seq<string>, values: seq<R>)
    requires Written(parse, entry, records, values)
    ensures RecordsOfEntry(parse, entry) == values
  {
    hide Trim, Contains, Documents, AppendAll, Stream, ReadRecords, EndsWith;
    if entry.isDir && entry.lineage.Some? && entry.readable {
      forall j | 0 <= j < |records| ensures records[j] != "" {
        RenderedIsNotEmpty(records[j]);
      }
      AppendAllIsStream(records);
      RoundTrip(records);
      ReadAll(parse, Trimmed(records), values);
    }
  }

  lemma RenderedIsNotEmpty(record: string)
    requires Rendered(record)
    ensures record != ""
  {
  }

  /** Whatever the archiver appended, list by list and record by record, is what the parser collects, in
      that order. */
  lemma {:induction false} AllListsAreRead<R>(parse: string -> Option<R>, entries: seq<Entry>,
                                              records: seq<seq<string>>, values: seq<seq<R>>)
    requires |entries| == |records| == |values|
    requires forall i :: 0 <= i < |entries| ==> Written(parse, entries[i], records[i], values[i])
    ensures RecordsOfEntries(parse, entries) == Flatten(values)
  {
    hide Written, RecordsOfEntry;
    if entries != [] {
      EntryRead(parse, entries[0], records[0], values[0]);
      AllListsAreRead(parse, entries[1..], records[1..], values[1..]);
    }
  }
}
