/** The parser's iterators over archived emails, file after file and row after row. */
module EmailReader {
  import opened Prelude
  import opened Text
  import opened EmailStore

  /** One item of an email iterator. */
  type Item = Result<EmailData, string>

  const READ_ERROR := "read error"

  /** A file as its decoder hands it out: an `.eml` text, or batches of rows; None is an error. */
  datatype FileContent = EmlText(text: Option<string>) | RowBatches(batches: Option<seq<Option<Batch>>>)

  function Oks(rows: seq<EmailData>): (items: seq<Item>)
    ensures |items| == |rows| && forall i :: 0 <= i < |rows| ==> items[i] == Ok(rows[i])
  {
    seq(|rows|, i requires 0 <= i < |rows| => Ok(rows[i]))
  }

  lemma OksConcat(a: seq<EmailData>, b: seq<EmailData>)
    ensures Oks(a + b) == Oks(a) + Oks(b)
  {
  }

  function ItemsOfBatches(batches: seq<Option<Batch>>): seq<Item> {
    if batches == [] then []
    else (match batches[0] case None => [Err(READ_ERROR)] case Some(rows) => Oks(rows)) + ItemsOfBatches(batches[1..])
  }

  /** Batches that can be read give their rows, one that cannot gives an error, and reading goes on. */
  lemma {:induction false} BatchesInTurn(a: seq<Option<Batch>>, b: seq<Option<Batch>>, rows: Batch)
    ensures ItemsOfBatches(a + b) == ItemsOfBatches(a) + ItemsOfBatches(b)
    ensures ItemsOfBatches([Some(rows)]) == Oks(rows) && ItemsOfBatches([None]) == [Err("read error")]
  {
    hide Oks;
    OneBatch(rows);
    if a == [] {
      assert a + b == b;
    } else {
      assert (a + b)[1..] == a[1..] + b;
      BatchesInTurn(a[1..], b, rows);
    }
  }

  lemma OneBatch(rows: Batch)
    ensures ItemsOfBatches([Some(rows)]) == Oks(rows) && ItemsOfBatches([None]) == [Err("read error")]
  {
    hide Oks;
    var none: seq<Option<Batch>> := [];
    assert [Some(rows)][1..] == none && [Option<Batch>.None][1..] == none;
  }

  // ----- paths

  /** Position of the dot before the extension; a leading dot does not start one. */
  function DotOf(name: string): (r: Option<nat>)
    ensures r.Some? ==> 0 < r.value < |name| && name[r.value] == '.'
    ensures r.Some? ==> forall j :: r.value < j < |name| ==> name[j] != '.'
  {
    if |name| <= 1 then None
    else if name[|name| - 1] == '.' then Some(|name| - 1)
    else DotOf(name[..|name| - 1])
  }

  function Extension(name: string): string {
    var dot := DotOf(name);
    if dot.None? then "" else Lower(name[dot.value + 1..])
  }

  function Stem(name: string): string {
    var dot := DotOf(name);
    if dot.None? then name else name[..dot.value]
  }

  function ItemsOfFile(name: string, disk: map<string, FileContent>): seq<Item> {
    if Extension(name) == "eml" then
      if name in disk && disk[name].EmlText? && disk[name].text.Some? then
        [Ok(EmailData(Stem(name), disk[name].text.value))]
      else [Err(READ_ERROR)]
    else if Extension(name) == "parquet" then
      if name in disk && disk[name].RowBatches? && disk[name].batches.Some? then
        ItemsOfBatches(disk[name].batches.value)
      else [Err(READ_ERROR)]
    else []
  }

  function ItemsOfFiles(names: seq<string>, disk: map<string, FileContent>): seq<Item> {
    if names == [] then [] else ItemsOfFile(names[0], disk) + ItemsOfFiles(names[1..], disk)
  }

  // ----- iterators

  /** What an iterator with the given items left does on `next`. */
  predicate Advances(before: seq<Item>, item: Option<Item>, after: seq<Item>) {
    if before == [] then item == None && after == [] else item == Some(before[0]) && after == before[1..]
  }

  lemma AdvancesWithin(before: seq<Item>, item: Option<Item>, after: seq<Item>, rest: seq<Item>)
    requires before != [] && Advances(before, item, after)
    ensures Advances(before + rest, item, after + rest)
  {
  }

  lemma AdvancesFirst(x: Item, rest: seq<Item>)
    ensures Advances([x] + rest, Some(x), rest)
    ensures Advances([], None, [])
  {
  }

  lemma OksFrom(rows: seq<EmailData>, k: nat, rest: seq<Item>)
    requires k < |rows|
    ensures Oks(rows[k..]) + rest == [Ok(rows[k])] + (Oks(rows[k + 1..]) + rest)
    ensures rows[0..] == rows
  {
  }

  lemma NoRowsLeft(batch: Option<Batch>, row: nat, rest: seq<Item>)
    requires batch.Some? ==> row == |batch.value|
    ensures (if batch.Some? then Oks(batch.value[row..]) else []) + rest == rest
  {
  }

  /** Rows of one Parquet file, batch by batch. */
  class ParquetEmailReader {
    var reader: seq<Option<Batch>>
    var currentBatch: Option<Batch>
    var currentRow: nat

    constructor (batches: seq<Option<Batch>>)
      ensures Valid() && Remaining() == ItemsOfBatches(batches)
    {
      reader, currentBatch, currentRow := batches, None, 0;
    }

    ghost predicate Valid()
      reads this
    {
      currentBatch.Some? ==> currentRow <= |currentBatch.value|
    }

    /** The items still to come. */
    ghost function Remaining(): seq<Item>
      requires Valid()
      reads this
    {
      (if currentBatch.Some? then Oks(currentBatch.value[currentRow..]) else []) + ItemsOfBatches(reader)
    }

    /** The next row, skipping over exhausted and empty batches. */
    method Next() returns (item: Option<Item>)
      requires Valid()
      modifies this
      ensures Valid() && Advances(old(Remaining()), item, Remaining())
    {
      hide Oks, Advances;
      ghost var all := Remaining();
      while true
        invariant Valid() && Remaining() == all
        decreases |reader|
      {
        if currentBatch.Some? && currentRow < |currentBatch.value| {
          var rows, row := currentBatch.value, currentRow;
          OksFrom(rows, row, ItemsOfBatches(reader));
          currentRow := currentRow + 1;
          AdvancesFirst(Ok(rows[row]), Remaining());
          return Some(Ok(rows[row]));
        }
        NoRowsLeft(currentBatch, currentRow, ItemsOfBatches(reader));
        if reader == [] {
          AdvancesFirst(Err(READ_ERROR), []);
          return None;
        }
        var batch := reader[0];
        reader := reader[1..];
        if batch.None? {
          assert all == [Err(READ_ERROR)] + ItemsOfBatches(reader);
          NoRowsLeft(currentBatch, currentRow, ItemsOfBatches(reader));
          AdvancesFirst(Err(READ_ERROR), Remaining());
          return Some(Err(READ_ERROR));
        }
        currentBatch, currentRow := batch, 0;
        assert batch.value[0..] == batch.value;
      }
    }
  }

  /** Chains the files of a list: `.eml` files give one email, `.parquet` files one per row, others
      are skipped. */
  class MultiFileEmailReader {
    const disk: map<string, FileContent>
    var filePaths: seq<string>
    var current: Option<ParquetEmailReader>

    constructor (names: seq<string>, disk: map<string, FileContent>)
      ensures Valid() && current == None && Remaining() == ItemsOfFiles(names, disk)
    {
      this.disk, this.filePaths, this.current := disk, names, None;
    }

    ghost function Inner(): set<object>
      reads this
    {
      if current.Some? then {current.value} else {}
    }

    ghost predicate Valid()
      reads this, Inner()
    {
      current.Some? ==> current.value.Valid()
    }

    ghost function Remaining(): seq<Item>
      requires Valid()
      reads this, Inner()
    {
      (if current.Some? then current.value.Remaining() else []) + ItemsOfFiles(filePaths, disk)
    }

    /** Opens one file: an email at once, a reader for its rows, an error, or nothing. */
    method Open(name: string) returns (item: Option<Item>, reader: Option<ParquetEmailReader>)
      ensures item.Some? ==> reader.None? && ItemsOfFile(name, disk) == [item.value]
      ensures reader.Some? ==>
        fresh(reader.value) && reader.value.Valid() && ItemsOfFile(name, disk) == reader.value.Remaining()
      ensures item.None? && reader.None? ==> ItemsOfFile(name, disk) == []
    {
      hide DotOf, Lower, ItemsOfBatches;
      if Extension(name) == "eml" {
        if name in disk && disk[name].EmlText? && disk[name].text.Some? {
          return Some(Ok(EmailData(Stem(name), disk[name].text.value))), None;
        }
        return Some(Err(READ_ERROR)), None;
      } else if Extension(name) == "parquet" {
        if name in disk && disk[name].RowBatches? && disk[name].batches.Some? {
          var r := new ParquetEmailReader(disk[name].batches.value);
          return None, Some(r);
        }
        return Some(Err(READ_ERROR)), None;
      }
      return None, None;
    }

    method Next() returns (item: Option<Item>)
      requires Valid()
      modifies this, Inner()
      ensures Valid() && fresh(Inner() - old(Inner()))
      ensures Advances(old(Remaining()), item, Remaining())
    {
      hide ItemsOfFile, ParquetEmailReader.Remaining, ParquetEmailReader.Valid;
      ghost var all := Remaining();
      while true
        invariant Valid() && fresh(Inner() - old(Inner())) && Remaining() == all
        decreases |filePaths|, current.Some?
      {
        if current.Some? {
          ghost var rows := current.value.Remaining();
          item := current.value.Next();
          if item.Some? {
            AdvancesWithin(rows, item, current.value.Remaining(), ItemsOfFiles(filePaths, disk));
            return;
          }
          current := None;
          assert all == Remaining();
        }
        if filePaths == [] {
          return None;
        }
        var name := filePaths[0];
        filePaths := filePaths[1..];
        assert all == ItemsOfFile(name, disk) + ItemsOfFiles(filePaths, disk);
        item, current := Open(name);
        if item.Some? {
          AdvancesWithin([item.value], item, [], ItemsOfFiles(filePaths, disk));
          return;
        }
        assert all == Remaining();
      }
    }
  }
}
