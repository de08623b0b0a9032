/** The whole way of an email: fetched into a directory, collected, read and parsed. */
module Pipeline {
  import opened Prelude
  import opened EmailStore
  import opened EmailReader
  import opened ArchiveThenParse
  import opened RawThenParse
  import opened Dataset
  import opened Nntp
  import PublicInbox
  import InboxTheorems
  import EmailId
  import Decimal
  import ProgressFile
  import Text
  import AW = ArchiveWriter

  /** What is in the directory of a list: its email files, and others that are not emails. */
  ghost predicate Lists(entries: seq<(string, bool)>, c: Contents) {
    multiset(EmailNames(entries)) == multiset(c.parquet.Keys) + multiset(c.eml.Keys)
  }

  /** Everything in the directory can be read back. */
  ghost predicate CanBeRead(c: Contents, files: map<string, FileContent>) {
    Decodes(c.parquet, files) && DecodesEml(c.eml, files)
  }

  /** The items the parser gets out of a directory. */
  function ItemsIn(entries: seq<(string, bool)>, files: map<string, FileContent>): seq<Item> {
    ItemsOfFiles(SortNames(EmailNames(entries)), files)
  }

  /** Parses the directory of one list: collects its files, chains them and works through the items. */
  method ParseDirectory<P>(entries: seq<(string, bool)>, files: map<string, FileContent>, parse: Parser<P>,
                           failOnError: bool, max: nat)
    returns (out: Outcome<P>, ghost done: seq<EmailData>)
    ensures Oks(done) <= ItemsIn(entries, files)
    ensures Accounts(parse, if out.groups.Some? then out.groups.value else [], out.errors, out.total, max, done)
    ensures out.ok <==> max == 0 || Sound(ItemsIn(entries, files), parse, failOnError)
    ensures out.ok && max > 0 ==> ItemsIn(entries, files) == Oks(done)
    ensures max > 0 ==>
      (if out.groups.Some? then out.groups.value else []) == GroupsOf(parse, Chunks(done, max))
  {
    hide Accounts, Sound, ItemsOfFiles, Oks, GroupsOf, Chunks;
    var names := CollectEmailFiles(entries);
    var emails := new MultiFileEmailReader(names, files);
    out, done := ProcessMailingList(emails, parse, failOnError, max);
  }

  lemma SameOks(a: seq<EmailData>, b: seq<EmailData>)
    requires Oks(a) == Oks(b)
    ensures a == b
  {
    forall i | 0 <= i < |a| ensures a[i] == b[i] {
      assert Oks(a)[i] == Oks(b)[i];
    }
  }

  lemma OksAreSound<P>(rows: seq<EmailData>, parse: Parser<P>, failOnError: bool)
    ensures Sound(Oks(rows), parse, failOnError) <==> !failOnError || Failures(parse, rows) == []
  {
    hide Failures;
    ReadableOks(rows, []);
    assert Oks(rows) + [] == Oks(rows) && rows + [] == rows;
  }

  /** A file that cannot be opened, or an `.eml` file whose text cannot be read. */
  predicate CannotBeOpened(name: string, files: map<string, FileContent>) {
    || name !in files
    || (Extension(name) == "eml" && !(files[name].EmlText? && files[name].text.Some?))
    || (Extension(name) == "parquet" && !(files[name].RowBatches? && files[name].batches.Some?))
  }

  lemma {:induction false} ItemsOfMember(names: seq<string>, name: string, files: map<string, FileContent>, item: Item)
    requires name in multiset(names) && item in ItemsOfFile(name, files)
    ensures item in ItemsOfFiles(names, files)
  {
    hide ItemsOfFile;
    if name != names[0] {
      assert names == [names[0]] + names[1..];
      ItemsOfMember(names[1..], name, files, item);
    }
  }

  /** One such file among the email files of a list makes the whole run fail. */
  lemma UnreadableFileFails<P>(entries: seq<(string, bool)>, files: map<string, FileContent>, parse: Parser<P>,
                               failOnError: bool, name: string)
    requires name in EmailNames(entries) && CannotBeOpened(name, files)
    ensures !Sound(ItemsIn(entries, files), parse, failOnError)
  {
    hide Extension, SortNames, ItemsOfFiles;
    TakenExactly(entries, name);
    assert name in multiset(EmailNames(entries));
    SortNamesSorted(EmailNames(entries));
    assert ItemsOfFile(name, files) == [Err(READ_ERROR)];
    ItemsOfMember(SortNames(EmailNames(entries)), name, files, Err(READ_ERROR));
    var i :| 0 <= i < |ItemsIn(entries, files)| && ItemsIn(entries, files)[i] == Err(READ_ERROR);
    assert ItemsIn(entries, files)[i].Err?;
  }

  /** In Parquet mode and with up to 1000 files: the items are what the sessions fetched, in order. */
  lemma FetchThenRead(bufferSize: nat, yaml: ProgressFile.Yaml, articles: Articles, sessions: seq<Session>,
                      c: Contents, files: map<string, FileContent>, entries: seq<(string, bool)>)
    requires Reflects(AW.Parquet(bufferSize), yaml, articles, sessions, c) && |c.parquet| <= 1000
    requires Lists(entries, c) && CanBeRead(c, files)
    ensures ItemsIn(entries, files) == Oks(EmailsFor(articles, After(articles.Keys, sessions).log))
  {
    hide History, After, EmailsFor, LeftBy, ArchivedIn, Decodes, SortNames, ItemsOfFiles;
    var written :| LeftBy(written, c.parquet)
      && ArchivedIn(written) == EmailsFor(articles, After(articles.Keys, sessions).log);
    RoundTrip(written, c.parquet, files, EmailNames(entries));
  }

  /** From the server to the data set: whatever sessions fetched the list into Parquet files, up to
      1000 of them, the row groups together are the emails fetched, parsed, in the order they were
      fetched, and the error lines are those that do not parse. */
  method FetchThenParse<P>(ghost bufferSize: nat, ghost yaml: ProgressFile.Yaml, ghost articles: Articles,
                           ghost sessions: seq<Session>, ghost c: Contents, files: map<string, FileContent>,
                           entries: seq<(string, bool)>, parse: Parser<P>, failOnError: bool, max: nat)
    returns (out: Outcome<P>)
    requires Reflects(AW.Parquet(bufferSize), yaml, articles, sessions, c) && |c.parquet| <= 1000
    requires Lists(entries, c) && CanBeRead(c, files) && max > 0
    ensures var fetched := EmailsFor(articles, After(articles.Keys, sessions).log);
      && (out.ok <==> !failOnError || Failures(parse, fetched) == [])
      && (out.ok ==>
            && Flatten(if out.groups.Some? then out.groups.value else []) == Parsed(parse, fetched)
            && out.errors == Failures(parse, fetched)
            && out.total == |Parsed(parse, fetched)|
            && (if out.groups.Some? then out.groups.value else []) == GroupsOf(parse, Chunks(fetched, max)))
  {
    hide Reflects, After, EmailsFor, Parsed, Failures, Sound, ItemsIn, Flatten, CanBeRead, Lists, Oks, GroupsOf, Chunks;
    ghost var fetched := EmailsFor(articles, After(articles.Keys, sessions).log);
    FetchThenRead(bufferSize, yaml, articles, sessions, c, files, entries);
    OksAreSound(fetched, parse, failOnError);
    ghost var done;
    out, done := ParseDirectory(entries, files, parse, failOnError, max);
    if out.ok {
      SameOks(done, fetched);
    }
  }

  // ----- raw archives

  /** The available numbers up to the stored progress, once each. */
  function Reached(articles: Articles, sessions: seq<Session>): seq<nat> {
    Between(articles.Keys, 0, After(articles.Keys, sessions).last + 1)
  }

  /** Re-fetched articles replace their files, so a raw directory holds each article once. */
  lemma RawHoldsArticles(yaml: ProgressFile.Yaml, articles: Articles, sessions: seq<Session>, c: Contents)
    requires Reflects(AW.RawEmails, yaml, articles, sessions, c) && 0 !in articles
    ensures Holds(c.eml, EmailsFor(articles, Reached(articles, sessions)))
    ensures Identified(EmailsFor(articles, Reached(articles, sessions)))
  {
    hide Reflects, After, Between, Decimal.Render, Flatten;
    var ns := Reached(articles, sessions);
    var emails := EmailsFor(articles, ns);
    forall i | 0 <= i < |ns|
      ensures AW.EmlName(emails[i]) in c.eml && c.eml[AW.EmlName(emails[i])] == emails[i].content
    {
      ArticleIsOnDisk(AW.RawEmails, yaml, articles, sessions, c, ns[i]);
    }
    forall i, j | 0 <= i < j < |ns| ensures emails[i].emailId != emails[j].emailId {
      Decimal.ValueOfRender(ns[i]);
      Decimal.ValueOfRender(ns[j]);
    }
    forall name | name in c.eml ensures exists e :: e in emails && name == AW.EmlName(e) {
      OnlyArticlesOnDisk(yaml, articles, sessions, c, name);
      var n :| n in articles && n <= After(articles.Keys, sessions).last && name == Decimal.Render(n) + ".eml";
      assert n in ns;
      var i :| 0 <= i < |ns| && ns[i] == n;
      assert emails[i] in emails && name == AW.EmlName(emails[i]);
    }
  }

  lemma RawListing(yaml: ProgressFile.Yaml, articles: Articles, sessions: seq<Session>, c: Contents,
                   entries: seq<(string, bool)>)
    requires Reflects(AW.RawEmails, yaml, articles, sessions, c) && Lists(entries, c)
    ensures multiset(EmailNames(entries)) == multiset(c.eml.Keys)
  {
    hide History, After, EmailsFor, EmailNames;
  }

  /** In raw mode the parser gets every available article up to the progress exactly once, however
      often it was fetched; and by rising numbers if and only if no number is above the leading
      digits of a later one. */
  lemma FetchRawThenRead(yaml: ProgressFile.Yaml, articles: Articles, sessions: seq<Session>, c: Contents,
                         files: map<string, FileContent>, entries: seq<(string, bool)>)
    requires Reflects(AW.RawEmails, yaml, articles, sessions, c) && 0 !in articles
    requires Lists(entries, c) && CanBeRead(c, files)
    ensures var ns := Reached(articles, sessions);
      && multiset(ItemsIn(entries, files)) == multiset(Oks(EmailsFor(articles, ns)))
      && (ItemsIn(entries, files) == Oks(EmailsFor(articles, ns))
          <==> forall i, j :: 0 <= i < j < |ns| ==>
            |Decimal.Render(ns[i])| <= |Decimal.Render(ns[j])| && ns[i] <= Leading(ns[j], |Decimal.Render(ns[i])|))
  {
    hide Reflects, Lists, After, Between, Decimal.Render, Flatten, Holds, Identified, SortNames, ItemsOfFiles, Oks,
      Leading, DecodesEml;
    RawListing(yaml, articles, sessions, c, entries);
    var ns := Reached(articles, sessions);
    var emails := EmailsFor(articles, ns);
    RawHoldsArticles(yaml, articles, sessions, c);
    RawReadBack(c.eml, emails, files, EmailNames(entries));
    NumbersInOrderIff(emails, ns);
  }

  /** A raw archive of a first public-inbox run is read in the order it was written, as long as ten
      columns hold the numbers. */
  lemma InboxThenRead(epochs: seq<PublicInbox.EpochRepo>, c: Contents, files: map<string, FileContent>,
                      entries: seq<(string, bool)>)
    requires c.eml == AW.EmlFiles(map[], InboxTheorems.FreshEmails(epochs, 0)) && c.parquet == map[]
    requires |Decimal.Render(InboxTheorems.Total(epochs))| <= 10
    requires Lists(entries, c) && CanBeRead(c, files)
    ensures ItemsIn(entries, files) == Oks(InboxTheorems.FreshEmails(epochs, 0))
  {
    hide InboxTheorems.FreshEmails, AW.EmlFiles, DistinctIds, Ascending, EmlNames, Identified, SortNames, ItemsOfFiles,
      Oks, Latest, DecodesEml, Decodes, Decimal.Render;
    var emails := InboxTheorems.FreshEmails(epochs, 0);
    InboxNamesAscend(epochs);
    DistinctAreLatest(emails);
    RawRoundTrip(emails, files, EmailNames(entries));
  }

  lemma InboxIdsAscend(a: nat, x: (string, PublicInbox.Commit), b: nat, y: (string, PublicInbox.Commit), high: nat)
    requires a < b <= high && |Decimal.Render(high)| <= 10
    ensures var s, t := EmailId.Format(a, x.0, x.1.sha), EmailId.Format(b, y.0, y.1.sha);
      s != t && Text.LexLeq(s + ".eml", t + ".eml")
  {
    hide Decimal.Render, Text.LexLeq, Decimal.Value;
    Decimal.RenderLengthMonotone(a, b);
    Decimal.RenderLengthMonotone(b, high);
    var s, t := EmailId.Format(a, x.0, x.1.sha), EmailId.Format(b, y.0, y.1.sha);
    var p, q := Decimal.Pad(a, 10), Decimal.Pad(b, 10);
    PaddedInOrder(a, b, s[10..] + ".eml", t[10..] + ".eml");
    assert s[..10] == p && t[..10] == q;
    assert s + ".eml" == p + (s[10..] + ".eml") && t + ".eml" == q + (t[10..] + ".eml");
    Decimal.ValueOfPad(a, 10);
    Decimal.ValueOfPad(b, 10);
  }

  lemma InboxNamesAscend(epochs: seq<PublicInbox.EpochRepo>)
    requires |Decimal.Render(InboxTheorems.Total(epochs))| <= 10
    ensures var emails := InboxTheorems.FreshEmails(epochs, 0);
      DistinctIds(emails) && Identified(emails) && Ascending(EmlNames(emails))
  {
    hide InboxTheorems.FreshEmails, InboxTheorems.FreshNumbers, PublicInbox.AllCommits, Decimal.Render, Decimal.Pad;
    var emails, ns, all := InboxTheorems.FreshEmails(epochs, 0), InboxTheorems.FreshNumbers(epochs, 0),
      PublicInbox.AllCommits(epochs);
    InboxTheorems.FreshRunIsNumbered(epochs, 0);
    forall i, j | 0 <= i < j < |emails|
      ensures emails[i].emailId != emails[j].emailId
      ensures Text.LexLeq(AW.EmlName(emails[i]), AW.EmlName(emails[j]))
    {
      InboxIdsAscend(ns[i], all[ns[i] - 1], ns[j], all[ns[j] - 1], InboxTheorems.Total(epochs));
    }
  }
}
