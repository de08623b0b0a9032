/** Range mode: list names and article numbers travel through the channel as one text. */
module RangeMode {
  import opened Prelude
  import opened Text
  import opened Scheduler
  import RangeInputs
  import Decimal

  const MARK := "_##"

  function Encode(list: string, index: nat): string {
    list + MARK + Decimal.Render(index)
  }

  /** None stands for the panic on a message that does not split or parse. */
  function Decode(message: string): Option<(string, nat)> {
    match SplitOnce(message, MARK)
    case None => None
    case Some((list, index)) =>
      match Decimal.ParseUsize(index)
      case None => None
      case Some(n) => Some((list, n))
  }

  lemma MarkStaysInside(list: string)
    ensures Contains(list + MARK[..2], MARK) <==> Contains(list, MARK)
  {
    var s := list + MARK[..2];
    forall i | MatchesAt(s, MARK, i) ensures MatchesAt(list, MARK, i) {
      assert s[i + 2] == s[i..i + 3][2] == '#' && s[i + 1] == s[i..i + 3][1] == '#';
      assert s[|list|] == '_';
      assert i + 3 <= |list|;
      assert list[i..i + 3] == s[i..i + 3];
    }
    forall i | MatchesAt(list, MARK, i) ensures MatchesAt(s, MARK, i) {
      assert s[i..i + 3] == list[i..i + 3];
    }
  }

  /** The worker decodes what the producer encoded if and only if the list name has no mark. */
  lemma DecodeInvertsEncode(list: string, index: nat)
    requires index <= Decimal.USIZE_MAX
    ensures Decode(Encode(list, index)) == Some((list, index)) <==> !Contains(list, MARK)
  {
    hide Contains, Decimal.Render, Decimal.ParseUsize;
    var digits := Decimal.Render(index);
    Decimal.ParseRender(index);
    MarkStaysInside(list);
    FirstSeparator(list, MARK, digits);
    var message := Encode(list, index);
    assert message[..|list|] == list && message[|list| + 3..] == digits;
  }

  /** The messages for one list: one for every number of the range, parsed afresh. */
  function Messages(list: string, numbers: seq<nat>): (ms: seq<string>)
    ensures |ms| == |numbers|
  {
    seq(|numbers|, i requires 0 <= i < |numbers| => Encode(list, numbers[i]))
  }

  function MessageBatches(lists: seq<string>, numbers: seq<nat>): seq<seq<string>> {
    if lists == [] then [] else [Messages(lists[0], numbers)] + MessageBatches(lists[1..], numbers)
  }

  /** The producer's batches: one a list; an ill-formed range sends nothing. */
  function Batches(lists: seq<string>, range: string): seq<seq<string>> {
    var numbers := RangeInputs.ParseSequence(range);
    if numbers.Err? then [] else MessageBatches(lists, numbers.value)
  }

  function RangeConfig(lists: seq<string>, range: string, workers: nat): Config {
    Config(Batches(lists, range), false, false, workers)
  }

  /** Each list with every number of the range. */
  function Pairs(lists: seq<string>, numbers: seq<nat>): seq<(string, nat)> {
    if lists == [] then [] else PairsOf(lists[0], numbers) + Pairs(lists[1..], numbers)
  }

  function PairsOf(list: string, numbers: seq<nat>): (pairs: seq<(string, nat)>)
    ensures |pairs| == |numbers|
  {
    seq(|numbers|, i requires 0 <= i < |numbers| => (list, numbers[i]))
  }

  function DecodeAll(messages: seq<string>): (r: seq<Option<(string, nat)>>)
    ensures |r| == |messages|
  {
    seq(|messages|, i requires 0 <= i < |messages| => Decode(messages[i]))
  }

  function Somes(pairs: seq<(string, nat)>): (r: seq<Option<(string, nat)>>)
    ensures |r| == |pairs|
  {
    seq(|pairs|, i requires 0 <= i < |pairs| => Some(pairs[i]))
  }

  lemma DecodeAllConcat(a: seq<string>, b: seq<string>)
    ensures DecodeAll(a + b) == DecodeAll(a) + DecodeAll(b)
  {
    hide Decode;
  }

  lemma SomesConcat(a: seq<(string, nat)>, b: seq<(string, nat)>)
    ensures Somes(a + b) == Somes(a) + Somes(b)
  {
  }

  lemma DecodeMessages(list: string, numbers: seq<nat>)
    requires !Contains(list, MARK) && forall i :: 0 <= i < |numbers| ==> numbers[i] <= Decimal.USIZE_MAX
    ensures DecodeAll(Messages(list, numbers)) == Somes(PairsOf(list, numbers))
  {
    hide Encode, Decode, Contains;
    var a, b := DecodeAll(Messages(list, numbers)), Somes(PairsOf(list, numbers));
    forall i | 0 <= i < |numbers| ensures a[i] == b[i] {
      DecodeInvertsEncode(list, numbers[i]);
    }
  }

  lemma {:induction false} DecodeBatches(lists: seq<string>, numbers: seq<nat>)
    requires forall i :: 0 <= i < |lists| ==> !Contains(lists[i], MARK)
    requires forall i :: 0 <= i < |numbers| ==> numbers[i] <= Decimal.USIZE_MAX
    ensures DecodeAll(Flatten(MessageBatches(lists, numbers))) == Somes(Pairs(lists, numbers))
  {
    hide Messages, PairsOf, Contains, DecodeAll, Somes;
    if lists == [] {
      NothingDecoded();
    } else {
      var rest := lists[1..];
      DecodeBatches(rest, numbers);
      DecodeMessages(lists[0], numbers);
      DecodeAllConcat(Messages(lists[0], numbers), Flatten(MessageBatches(rest, numbers)));
      SomesConcat(PairsOf(lists[0], numbers), Pairs(rest, numbers));
      assert MessageBatches(lists, numbers)[1..] == MessageBatches(rest, numbers);
    }
  }

  lemma NothingDecoded()
    ensures DecodeAll([]) == [] && Somes([]) == []
  {
  }

  lemma {:induction false} ExpansionFits(parts: seq<RangeInputs.SequencePart>)
    requires forall i :: 0 <= i < |parts| ==> RangeInputs.WellFormed(parts[i])
    ensures forall i :: 0 <= i < |RangeInputs.Expand(parts)| ==> RangeInputs.Expand(parts)[i] <= Decimal.USIZE_MAX
  {
    if parts != [] {
      ExpansionFits(parts[1..]);
    }
  }

  lemma {:induction false} ParsedPartsWellFormed(texts: seq<string>)
    ensures RangeInputs.ParseParts(texts).Ok? ==>
      forall i :: 0 <= i < |RangeInputs.ParseParts(texts).value| ==>
        RangeInputs.WellFormed(RangeInputs.ParseParts(texts).value[i])
  {
    hide Split, Trim, SplitOnce, Decimal.ParseNat;
    if texts != [] {
      ParsedPartsWellFormed(texts[1..]);
    }
  }

  /** Range mode end to end: over a run to its end without shutdown in which some worker never
      failed, whatever the interleaving, what the workers decode is each list paired with the
      expansion of the range, in order, each pair once. */
  lemma RangeModeDelivers(lists: seq<string>, range: string, workers: nat, actions: seq<Action>, survivor: nat)
    requires survivor < workers && Calm(actions, survivor)
    requires forall i :: 0 <= i < |lists| ==> !Contains(lists[i], MARK)
    requires Exec(RangeConfig(lists, range, workers), actions).Some?
    requires AllDone(Exec(RangeConfig(lists, range, workers), actions).value)
    ensures var received := DecodeAll(Tasks(Exec(RangeConfig(lists, range, workers), actions).value.delivered));
      var numbers := RangeInputs.ParseSequence(range);
      received == if numbers.Err? then [] else Somes(Pairs(lists, numbers.value))
  {
    hide Contains, Split, RangeInputs.ParseParts, RangeInputs.Expand, Exec, Decode;
    AllDelivered(RangeConfig(lists, range, workers), actions, survivor);
    var parts := RangeInputs.ParseParts(Split(range, ","));
    if parts.Ok? {
      ParsedPartsWellFormed(Split(range, ","));
      ExpansionFits(parts.value);
      DecodeBatches(lists, RangeInputs.Expand(parts.value));
    }
  }

  /** And with a shutdown, or with workers that failed: what had been sent has been delivered, once one
      worker came to the end. */
  lemma RangeModeDrains(lists: seq<string>, range: string, workers: nat, actions: seq<Action>, survivor: nat)
    requires survivor < workers && forall k :: 0 <= k < |actions| ==> actions[k] != WorkerFails(survivor)
    requires Exec(RangeConfig(lists, range, workers), actions).Some?
    requires AllDone(Exec(RangeConfig(lists, range, workers), actions).value)
    ensures var s := Exec(RangeConfig(lists, range, workers), actions).value; Tasks(s.delivered) == s.sent
  {
    hide Exec, Batches;
    DrainsToTheEnd(RangeConfig(lists, range, workers), actions, survivor);
  }
}
