/** Turning the emails of a list into a data set: batches, row groups and the error file. */
module Dataset {
  import opened Prelude
  import opened EmailStore
  import opened EmailReader

  // ----- the error file

  predicate NeedsQuotes(s: string) {
    ',' in s || '"' in s || '\n' in s
  }

  function DoubleQuotes(s: string): string {
    if s == "" then "" else (if s[0] == '"' then "\"\"" else [s[0]]) + DoubleQuotes(s[1..])
  }

  function EscapeField(s: string): string {
    if NeedsQuotes(s) then "\"" + DoubleQuotes(s) + "\"" else s
  }

  function FlattenLines(s: string): string {
    if s == "" then "" else (if s[0] == '\n' then "\\n" else [s[0]]) + FlattenLines(s[1..])
  }

  function CsvLine(emailId: string, message: string): string {
    EscapeField(emailId) + "," + EscapeField(FlattenLines(message))
  }

  /** The rest of a quoted field and what follows it; doubled quotes stand for one. */
  function ReadQuoted(s: string): Option<(string, string)> {
    if s == "" then None
    else if s[0] == '"' && (|s| == 1 || s[1] != '"') then Some(("", s[1..]))
    else
      var width := if s[0] == '"' then 2 else 1;
      match ReadQuoted(s[width..])
      case None => None
      case Some((value, rest)) => Some(([s[0]] + value, rest))
  }

  /** A field without quotes goes up to the next comma. */
  function ReadPlain(s: string): (string, string) {
    if s == "" || s[0] == ',' then ("", s)
    else
      var (value, rest) := ReadPlain(s[1..]);
      ([s[0]] + value, rest)
  }

  /** One field of a line and what follows it, as section 2 of RFC 4180 has it. */
  function ReadField(s: string): Option<(string, string)> {
    if s != "" && s[0] == '"' then ReadQuoted(s[1..]) else Some(ReadPlain(s))
  }

  lemma {:induction false} QuotedReadBack(s: string, rest: string)
    requires rest != "" ==> rest[0] == ','
    ensures ReadQuoted(DoubleQuotes(s) + "\"" + rest) == Some((s, rest))
  {
    var text := DoubleQuotes(s) + "\"" + rest;
    if s == "" {
      assert text == "\"" + rest && text[1..] == rest;
    } else {
      QuotedReadBack(s[1..], rest);
      assert text == (if s[0] == '"' then "\"\"" else [s[0]]) + (DoubleQuotes(s[1..]) + "\"" + rest);
      assert s == [s[0]] + s[1..];
      if s[0] == '"' {
        assert text[0] == '"' && text[1] == '"' && text[2..] == DoubleQuotes(s[1..]) + "\"" + rest;
      } else {
        assert text[0] == s[0] && text[1..] == DoubleQuotes(s[1..]) + "\"" + rest;
      }
    }
  }

  lemma {:induction false} PlainReadBack(s: string, rest: string)
    requires ',' !in s && (rest != "" ==> rest[0] == ',')
    ensures ReadPlain(s + rest) == (s, rest)
  {
    if s == "" {
      assert s + rest == rest;
    } else {
      assert (s + rest)[1..] == s[1..] + rest && s == [s[0]] + s[1..];
      assert s[0] in s;
      PlainReadBack(s[1..], rest);
    }
  }

  lemma FieldReadBack(s: string, rest: string)
    requires rest != "" ==> rest[0] == ','
    ensures ReadField(EscapeField(s) + rest) == Some((s, rest))
  {
    hide DoubleQuotes, ReadQuoted, ReadPlain;
    if NeedsQuotes(s) {
      QuotedReadBack(s, rest);
      assert (EscapeField(s) + rest)[1..] == DoubleQuotes(s) + "\"" + rest;
    } else {
      PlainReadBack(s, rest);
      assert s != "" ==> s[0] in s;
      assert s == "" ==> s + rest == rest;
    }
  }

  lemma {:induction false} FlattenedHasNoBreak(s: string)
    ensures '\n' !in FlattenLines(s)
    ensures '\n' !in s ==> FlattenLines(s) == s
  {
    if s != "" {
      FlattenedHasNoBreak(s[1..]);
      assert s == [s[0]] + s[1..];
    }
  }

  /** Each line break is shown as a backslash and an n. */
  lemma {:induction false} BreaksAreShown(before: string, rest: string)
    requires '\n' !in before
    ensures FlattenLines(before + "\n" + rest) == before + "\\n" + FlattenLines(rest)
  {
    var s := before + "\n" + rest;
    if before == "" {
      assert s[1..] == rest;
    } else {
      assert s[1..] == before[1..] + "\n" + rest && before[0] in before;
      BreaksAreShown(before[1..], rest);
      assert before == [before[0]] + before[1..];
    }
  }

  /** A line of the error file is read back as the identifier and the message, whatever they contain;
      of the message only the line breaks are changed. */
  lemma CsvReadBack(emailId: string, message: string)
    ensures var line := CsvLine(emailId, message);
      ReadField(line).Some? && ReadField(line).value.0 == emailId
      && var rest := ReadField(line).value.1;
         rest != "" && rest[0] == ',' && ReadField(rest[1..]) == Some((FlattenLines(message), ""))
    ensures '\n' !in FlattenLines(message) && ('\n' !in message ==> FlattenLines(message) == message)
  {
    hide EscapeField, ReadField, FlattenLines;
    var second := EscapeField(FlattenLines(message));
    assert CsvLine(emailId, message) == EscapeField(emailId) + ("," + second);
    FieldReadBack(emailId, "," + second);
    assert ("," + second)[1..] == second + "";
    FieldReadBack(FlattenLines(message), "");
    FlattenedHasNoBreak(message);
  }

  // ----- what a list should become

  /** Parses one email's text, or says what is wrong with it. */
  type Parser<!P> = string -> Result<P, string>

  /** The parsed emails, each with its identifier, in input order. */
  function Parsed<P>(parse: Parser<P>, rows: seq<EmailData>): seq<(P, string)> {
    if rows == [] then []
    else
      var rest := Parsed(parse, rows[1..]);
      match parse(rows[0].content)
      case Ok(email) => [(email, rows[0].emailId)] + rest
      case Err(_) => rest
  }

  /** The error lines, one for every email that does not parse, in input order. */
  function Failures<P>(parse: Parser<P>, rows: seq<EmailData>): seq<string> {
    if rows == [] then []
    else
      var rest := Failures(parse, rows[1..]);
      match parse(rows[0].content)
      case Ok(_) => rest
      case Err(e) => [CsvLine(rows[0].emailId, e)] + rest
  }

  lemma {:induction false} EmailsConcat<P>(parse: Parser<P>, a: seq<EmailData>, b: seq<EmailData>)
    ensures Parsed(parse, a + b) == Parsed(parse, a) + Parsed(parse, b)
  {
    if a == [] {
      assert a + b == b;
    } else {
      assert (a + b)[1..] == a[1..] + b;
      EmailsConcat(parse, a[1..], b);
    }
  }

  lemma {:induction false} FailuresConcat<P>(parse: Parser<P>, a: seq<EmailData>, b: seq<EmailData>)
    ensures Failures(parse, a + b) == Failures(parse, a) + Failures(parse, b)
  {
    hide CsvLine;
    if a == [] {
      assert a + b == b;
    } else {
      assert (a + b)[1..] == a[1..] + b;
      FailuresConcat(parse, a[1..], b);
    }
  }

  lemma ParsedConcat<P>(parse: Parser<P>, a: seq<EmailData>, b: seq<EmailData>)
    ensures Parsed(parse, a + b) == Parsed(parse, a) + Parsed(parse, b)
    ensures Failures(parse, a + b) == Failures(parse, a) + Failures(parse, b)
  {
    EmailsConcat(parse, a, b);
    FailuresConcat(parse, a, b);
  }

  lemma ParsedOne<P>(parse: Parser<P>, row: EmailData)
    ensures Parsed(parse, [row])
      == (match parse(row.content) case Ok(email) => [(email, row.emailId)] case Err(_) => [])
    ensures Failures(parse, [row])
      == (match parse(row.content) case Ok(_) => [] case Err(e) => [CsvLine(row.emailId, e)])
  {
    hide CsvLine;
    var rest := [row][1..];
    assert rest == [];
  }

  /** One more row goes to the parsed emails or to the error lines. */
  lemma ParsedPush<P>(parse: Parser<P>, rows: seq<EmailData>, row: EmailData)
    ensures parse(row.content).Ok? ==>
      && Parsed(parse, rows + [row]) == Parsed(parse, rows) + [(parse(row.content).value, row.emailId)]
      && Failures(parse, rows + [row]) == Failures(parse, rows)
    ensures parse(row.content).Err? ==>
      && Parsed(parse, rows + [row]) == Parsed(parse, rows)
      && Failures(parse, rows + [row]) == Failures(parse, rows) + [CsvLine(row.emailId, parse(row.content).error)]
  {
    hide CsvLine, Parsed, Failures;
    ParsedConcat(parse, rows, [row]);
    ParsedOne(parse, row);
    var done, failed := Parsed(parse, rows), Failures(parse, rows);
    assert done + [] == done && failed + [] == failed;
  }

  lemma {:induction false} FailureShows<P>(parse: Parser<P>, rows: seq<EmailData>, i: nat)
    requires i < |rows| && parse(rows[i].content).Err?
    ensures Failures(parse, rows) != []
  {
    hide CsvLine;
    if i > 0 {
      FailureShows(parse, rows[1..], i - 1);
    }
  }

  lemma {:induction false} EveryRowCounts<P>(parse: Parser<P>, rows: seq<EmailData>)
    ensures |Parsed(parse, rows)| + |Failures(parse, rows)| == |rows|
  {
    if rows != [] {
      EveryRowCounts(parse, rows[1..]);
    }
  }

  /** The emails before the first item that could not be read. */
  function Readable(items: seq<Item>): (rows: seq<EmailData>)
    ensures |rows| <= |items|
  {
    if items == [] || items[0].Err? then [] else [items[0].value] + Readable(items[1..])
  }

  // ----- the loop

  datatype Outcome<P> = Outcome(groups: Option<seq<seq<(P, string)>>>, errors: seq<string>, total: nat, ok: bool)

  /** The row groups and error lines account for exactly these rows. */
  ghost predicate Accounts<P>(parse: Parser<P>, groups: seq<seq<(P, string)>>, errors: seq<string>, total: nat,
                              max: nat, rows: seq<EmailData>)
  {
    && Flatten(groups) == Parsed(parse, rows)
    && errors == Failures(parse, rows)
    && GroupSizes(groups, max)
    && total == |Parsed(parse, rows)|
  }

  ghost predicate GroupSizes<T>(groups: seq<seq<T>>, max: nat) {
    forall g :: g in groups ==> 1 <= |g| <= max
  }

  lemma GroupSizesPush<T>(groups: seq<seq<T>>, g: seq<T>, max: nat)
    requires GroupSizes(groups, max) && 1 <= |g| <= max
    ensures GroupSizes(groups + [g], max)
  {
  }

  /** `emails.by_ref().take(max).collect()` */
  method TakeBatch(emails: MultiFileEmailReader, max: nat) returns (batch: seq<Item>)
    requires emails.Valid()
    modifies emails, emails.Inner()
    ensures emails.Valid() && fresh(emails.Inner() - old(emails.Inner()))
    ensures batch + emails.Remaining() == old(emails.Remaining())
    ensures |batch| <= max && (|batch| < max ==> emails.Remaining() == [])
  {
    hide MultiFileEmailReader.Valid, MultiFileEmailReader.Remaining;
    batch := [];
    while |batch| < max
      invariant emails.Valid() && fresh(emails.Inner() - old(emails.Inner())) && |batch| <= max
      invariant batch + emails.Remaining() == old(emails.Remaining())
    {
      ghost var before := emails.Remaining();
      var item := emails.Next();
      if item.None? {
        break;
      }
      assert before == [item.value] + emails.Remaining();
      assert batch + before == (batch + [item.value]) + emails.Remaining();
      batch := batch + [item.value];
    }
  }

  /** Takes the rows out of a batch; the first unreadable item ends the run with its error. */
  method CollectRows(batch: seq<Item>) returns (rows: Option<seq<EmailData>>)
    ensures rows.Some? ==> batch == Oks(rows.value)
    ensures rows.None? ==> exists i :: 0 <= i < |batch| && batch[i].Err?
  {
    var collected: seq<EmailData> := [];
    for i := 0 to |batch|
      invariant Oks(collected) == batch[..i]
    {
      if batch[i].Err? {
        return None;
      }
      collected := collected + [batch[i].value];
    }
    assert batch[..|batch|] == batch;
    return Some(collected);
  }

  /** Parses the rows of a batch in order. With `failOnError` the first failure ends the run. */
  method ParseRows<P>(parse: Parser<P>, rows: seq<EmailData>, failOnError: bool)
    returns (emails: seq<(P, string)>, errors: seq<string>, ok: bool)
    ensures ok ==> emails == Parsed(parse, rows) && errors == Failures(parse, rows)
    ensures ok <==> !failOnError || Failures(parse, rows) == []
  {
    emails, errors, ok := [], [], true;
    for i := 0 to |rows|
      invariant emails == Parsed(parse, rows[..i]) && errors == Failures(parse, rows[..i])
      invariant failOnError ==> errors == []
    {
      hide CsvLine, Parsed, Failures;
      assert rows[..i + 1] == rows[..i] + [rows[i]];
      ParsedPush(parse, rows[..i], rows[i]);
      match parse(rows[i].content) {
        case Ok(email) =>
          emails := emails + [(email, rows[i].emailId)];
        case Err(e) =>
          if failOnError {
            FailureShows(parse, rows, i);
            ok := false;
            return;
          }
          errors := errors + [CsvLine(rows[i].emailId, e)];
      }
    }
    assert rows[..|rows|] == rows;
  }

  lemma {:induction false} ReadableOks(rows: seq<EmailData>, rest: seq<Item>)
    ensures Readable(Oks(rows) + rest) == rows + Readable(rest)
  {
    var items := Oks(rows) + rest;
    if rows == [] {
      assert items == rest;
    } else {
      assert items[1..] == Oks(rows[1..]) + rest;
      ReadableOks(rows[1..], rest);
    }
  }

  /** A further batch, written as a row group unless nothing in it parses. */
  lemma AccountsPush<P>(parse: Parser<P>, groups: seq<seq<(P, string)>>, errors: seq<string>, total: nat, max: nat,
                        done: seq<EmailData>, rows: seq<EmailData>)
    requires Accounts(parse, groups, errors, total, max, done) && |rows| <= max
    ensures var emails := Parsed(parse, rows);
      Accounts(parse, if emails == [] then groups else groups + [emails], errors + Failures(parse, rows),
               total + |emails|, max, done + rows)
  {
    hide Parsed, Failures, Flatten, GroupSizes;
    var emails := Parsed(parse, rows);
    ParsedConcat(parse, done, rows);
    EveryRowCounts(parse, rows);
    if emails == [] {
      assert Parsed(parse, done) + emails == Parsed(parse, done);
    } else {
      FlattenPush(groups, emails);
      GroupSizesPush(groups, emails, max);
    }
  }

  lemma NothingAccounted<P>(parse: Parser<P>, max: nat)
    ensures Accounts<P>(parse, [], [], 0, max, [])
  {
  }

  /** Why a run may end early. */
  ghost predicate Sound<P>(items: seq<Item>, parse: Parser<P>, failOnError: bool) {
    (forall i :: 0 <= i < |items| ==> items[i].Ok?) && (failOnError ==> Failures(parse, Readable(items)) == [])
  }

  /** A batch that ends the run ends it for all items around it. */
  lemma UnsoundBatch<P>(parse: Parser<P>, failOnError: bool, done: seq<EmailData>, batch: seq<Item>, rest: seq<Item>)
    requires !Sound(batch, parse, failOnError)
    ensures !Sound(Oks(done) + (batch + rest), parse, failOnError)
  {
    hide Failures;
    if i :| 0 <= i < |batch| && batch[i].Err? {
      assert (Oks(done) + (batch + rest))[|done| + i].Err?;
    } else {
      var rows := Readable(batch);
      AllReadable(batch);
      ReadableOks(rows, rest);
      ReadableOks(done, Oks(rows) + rest);
      ParsedConcat(parse, rows, Readable(rest));
      ParsedConcat(parse, done, rows + Readable(rest));
    }
  }

  lemma {:induction false} AllReadable(items: seq<Item>)
    requires forall i :: 0 <= i < |items| ==> items[i].Ok?
    ensures items == Oks(Readable(items))
  {
    if items != [] {
      AllReadable(items[1..]);
    }
  }

  lemma AllReadIsSound<P>(parse: Parser<P>, failOnError: bool, done: seq<EmailData>)
    requires failOnError ==> Failures(parse, done) == []
    ensures Sound(Oks(done) + [], parse, failOnError)
  {
    ReadableOks(done, []);
    assert done + [] == done;
  }

  lemma ItemsPush(items: seq<Item>, done: seq<EmailData>, rows: seq<EmailData>, rest: seq<Item>)
    requires items == Oks(done) + (Oks(rows) + rest)
    ensures items == Oks(done + rows) + rest
  {
    hide Oks;
    OksConcat(done, rows);
  }

  lemma NoItems()
    ensures Oks([]) == []
  {
  }

  /** Reads and parses one batch; whether it ends the run is whether its items, alone, would. */
  method ProcessBatch<P>(batch: seq<Item>, parse: Parser<P>, failOnError: bool)
    returns (emails: seq<(P, string)>, errors: seq<string>, ok: bool, ghost rows: seq<EmailData>)
    ensures ok <==> Sound(batch, parse, failOnError)
    ensures ok ==> batch == Oks(rows) && emails == Parsed(parse, rows) && errors == Failures(parse, rows)
    ensures ok && failOnError ==> errors == []
  {
    hide Parsed, Failures, CsvLine, Oks, Readable;
    var read := CollectRows(batch);
    if read.None? {
      return [], [], false, [];
    }
    rows := read.value;
    emails, errors, ok := ParseRows(parse, read.value, failOnError);
    ReadableOks(rows, []);
    AllOks(rows);
    assert Oks(rows) + [] == Oks(rows) && rows + [] == rows;
    NoItems();
  }

  lemma AllOks(rows: seq<EmailData>)
    ensures forall i :: 0 <= i < |Oks(rows)| ==> Oks(rows)[i].Ok?
    ensures Readable([]) == []
  {
  }

  /** The row groups of batches: the emails that parse, batch by batch, unless there are none. */
  function GroupsOf<P>(parse: Parser<P>, batches: seq<seq<EmailData>>): seq<seq<(P, string)>> {
    if batches == [] then []
    else
      var older, group := GroupsOf(parse, batches[..|batches| - 1]), Parsed(parse, Last(batches));
      if group == [] then older else older + [group]
  }

  /** Whole batches so far; only the last can be short, and then nothing is left. */
  ghost predicate InBatches(batches: seq<seq<EmailData>>, done: seq<EmailData>, max: nat, more: bool) {
    && Flatten(batches) == done
    && (forall i :: 0 <= i < |batches| ==> 1 <= |batches[i]| <= max)
    && (forall i :: 0 <= i < |batches| ==> |batches[i]| == max || (!more && i == |batches| - 1))
  }

  lemma BatchPush<P>(parse: Parser<P>, batches: seq<seq<EmailData>>, done: seq<EmailData>, max: nat,
                     rows: seq<EmailData>, more: bool)
    requires InBatches(batches, done, max, true) && 1 <= |rows| <= max && (|rows| < max ==> !more)
    ensures InBatches(batches + [rows], done + rows, max, more)
    ensures GroupsOf(parse, batches + [rows])
         == GroupsOf(parse, batches) + if Parsed(parse, rows) == [] then [] else [Parsed(parse, rows)]
  {
    hide Parsed;
    FlattenPush(batches, rows);
    assert (batches + [rows])[..|batches|] == batches;
  }

  lemma NoBatches<P>(parse: Parser<P>, max: nat)
    ensures InBatches([], [], max, true) && GroupsOf(parse, []) == []
  {
  }

  lemma BatchesAreChunks(batches: seq<seq<EmailData>>, done: seq<EmailData>, max: nat, more: bool)
    requires InBatches(batches, done, max, more) && max > 0
    ensures batches == Chunks(done, max)
  {
    CutAtIsChunks(batches, max);
  }

  /** Reads, parses and writes a list batch by batch. The row groups are those of consecutive batches of
      the given size, and account, with the error lines, for exactly the emails dealt with, in order;
      the run deals with all of them if and only if every item can be read and, when failures count,
      every email parses. A batch size of zero deals with none. */
  method ProcessMailingList<P>(emails: MultiFileEmailReader, parse: Parser<P>, failOnError: bool, max: nat)
    returns (out: Outcome<P>, ghost done: seq<EmailData>)
    requires emails.Valid()
    modifies emails, emails.Inner()
    ensures out.groups != Some([])
    ensures Oks(done) <= old(emails.Remaining())
    ensures Accounts(parse, if out.groups.Some? then out.groups.value else [], out.errors, out.total, max, done)
    ensures out.ok <==> max == 0 || Sound(old(emails.Remaining()), parse, failOnError)
    ensures out.ok && max > 0 ==> old(emails.Remaining()) == Oks(done)
    ensures max > 0 ==>
      (if out.groups.Some? then out.groups.value else []) == GroupsOf(parse, Chunks(done, max))
  {
    hide MultiFileEmailReader.Valid, MultiFileEmailReader.Remaining, Accounts, Sound, Parsed, Failures, CsvLine, Oks,
      InBatches, GroupsOf, Chunks;
    var groups: seq<seq<(P, string)>> := [];
    var errors: seq<string> := [];
    var total: nat, ok := 0, true;
    done := [];
    NothingAccounted(parse, max);
    NoBatches(parse, max);
    ghost var batches: seq<seq<EmailData>>, more := [], true;
    ghost var items := emails.Remaining();
    NoItems();
    while true
      invariant emails.Valid() && fresh(emails.Inner() - old(emails.Inner())) && ok
      invariant items == Oks(done) + emails.Remaining()
      invariant Accounts(parse, groups, errors, total, max, done)
      invariant failOnError ==> Failures(parse, done) == []
      invariant InBatches(batches, done, max, more) && groups == GroupsOf(parse, batches)
      invariant !more ==> emails.Remaining() == []
      decreases |emails.Remaining()|
    {
      ghost var before := emails.Remaining();
      var batch := TakeBatch(emails, max);
      if batch == [] {
        break;
      }
      var batchEmails, failures, good, rows := ProcessBatch(batch, parse, failOnError);
      if !good {
        UnsoundBatch(parse, failOnError, done, batch, emails.Remaining());
        ok := false;
        break;
      }
      AccountsPush(parse, groups, errors, total, max, done, rows);
      assert more && |rows| == |batch|;
      BatchPush(parse, batches, done, max, rows, emails.Remaining() != []);
      batches, more := batches + [rows], emails.Remaining() != [];
      if batchEmails != [] {
        groups := groups + [batchEmails];
      }
      total, errors := total + |batchEmails|, errors + failures;
      ParsedConcat(parse, done, rows);
      ItemsPush(items, done, rows, emails.Remaining());
      done := done + rows;
    }
    if ok && max > 0 {
      AllReadIsSound(parse, failOnError, done);
    }
    if max > 0 {
      BatchesAreChunks(batches, done, max, more);
    }
    out := Outcome(if groups == [] then None else Some(groups), errors, total, ok);
  }
}
