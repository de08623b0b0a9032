/** Article ranges typed by the user: `1, 5, 10-15`. */
module RangeInputs {
  import opened Prelude
  import opened Text
  import Decimal

  datatype SequencePart = Single(n: nat) | Range(start: nat, end: nat)

  datatype SequenceParseError =
    | InvalidNumber(part: string)
    | InvalidRange(part: string)
    | DescendingRange(start: nat, end: nat)
    | EmptyPart

  function ParsePart(raw: string): Result<SequencePart, SequenceParseError> {
    var part := Trim(raw);
    if part == "" then Err(EmptyPart)
    else
      match SplitOnce(part, "-")
      case Some((a, b)) =>
        var start, end := Decimal.ParseUsize(Trim(a)), Decimal.ParseUsize(Trim(b));
        if start.None? || end.None? then Err(InvalidRange(part))
        else if start.value > end.value then Err(DescendingRange(start.value, end.value))
        else Ok(Range(start.value, end.value))
      case None =>
        var n := Decimal.ParseUsize(part);
        if n.None? then Err(InvalidNumber(part)) else Ok(Single(n.value))
  }

  /** Every part must be well formed; the first that is not decides the error. */
  function ParseParts(texts: seq<string>): Result<seq<SequencePart>, SequenceParseError> {
    if texts == [] then Ok([])
    else
      var first := ParsePart(texts[0]);
      if first.Err? then Err(first.error)
      else
        var rest := ParseParts(texts[1..]);
        if rest.Err? then rest else Ok([first.value] + rest.value)
  }

  function ExpandPart(part: SequencePart): seq<nat> {
    match part
    case Single(n) => [n]
    case Range(start, end) => if start <= end then seq(end + 1 - start, i requires 0 <= i => start + i) else []
  }

  function Expand(parts: seq<SequencePart>): seq<nat> {
    if parts == [] then [] else ExpandPart(parts[0]) + Expand(parts[1..])
  }

  function ParseSequence(s: string): Result<seq<nat>, SequenceParseError> {
    var parts := ParseParts(Split(s, ","));
    if parts.Err? then Err(parts.error) else Ok(Expand(parts.value))
  }

  // ----- printing and parsing back

  predicate WellFormed(part: SequencePart) {
    match part
    case Single(n) => n <= Decimal.USIZE_MAX
    case Range(start, end) => start <= end <= Decimal.USIZE_MAX
  }

  function PrintPart(part: SequencePart): string {
    match part
    case Single(n) => Decimal.Render(n)
    case Range(start, end) => Decimal.Render(start) + "-" + Decimal.Render(end)
  }

  function Join(texts: seq<string>): string {
    if texts == [] then ""
    else if |texts| == 1 then texts[0]
    else texts[0] + "," + Join(texts[1..])
  }

  lemma DigitsAreTight(s: string)
    requires Decimal.AllDigits(s) && s != []
    ensures Tight(s) && Trim(s) == s && ',' !in s && '-' !in s
  {
    assert Decimal.IsDigit(s[0]) && Decimal.IsDigit(s[|s| - 1]);
    TrimPadded("", s, "");
    assert "" + s + "" == s;
  }

  lemma PrintedPartIsTight(part: SequencePart)
    ensures Tight(PrintPart(part)) && ',' !in PrintPart(part)
  {
    hide Decimal.Render;
    match part {
      case Single(n) => DigitsAreTight(Decimal.Render(n));
      case Range(start, end) =>
        DigitsAreTight(Decimal.Render(start));
        DigitsAreTight(Decimal.Render(end));
    }
  }

  /** A printed part, with any white space around it, parses to itself. */
  lemma ParsePrintedPart(part: SequencePart, left: string, right: string)
    requires WellFormed(part) && AllWhitespace(left) && AllWhitespace(right)
    ensures ParsePart(left + PrintPart(part) + right) == Ok(part)
  {
    hide Decimal.Render, Trim, Split, Decimal.ParseUsize, AllWhitespace, IsWhitespace, Tight;
    PrintedPartIsTight(part);
    TrimPadded(left, PrintPart(part), right);
    match part {
      case Single(n) =>
        DigitsAreTight(Decimal.Render(n));
        Decimal.ParseRender(n);
        NoDash(Decimal.Render(n));
      case Range(start, end) =>
        var a, b := Decimal.Render(start), Decimal.Render(end);
        DigitsAreTight(a);
        DigitsAreTight(b);
        Decimal.ParseRender(start);
        Decimal.ParseRender(end);
        OneCharSeparator(a, '-');
        SplitOnceAt(a, "-", b);
    }
  }

  lemma NoDash(s: string)
    requires '-' !in s
    ensures SplitOnce(s, "-") == None
  {
    OneCharSeparator(s, '-');
    assert s + "-"[..0] == s;
  }

  lemma SplitNothing(s: string)
    requires ',' !in s
    ensures Split(s, ",") == [s]
  {
    OneCharSeparator(s, ',');
    assert s + ","[..0] == s;
  }

  lemma {:induction false} SplitJoin(texts: seq<string>)
    requires texts != [] && forall i :: 0 <= i < |texts| ==> ',' !in texts[i]
    ensures Split(Join(texts), ",") == texts
  {
    hide Contains, Split;
    if |texts| == 1 {
      SplitNothing(texts[0]);
      assert texts == [texts[0]];
    } else {
      OneCharSeparator(texts[0], ',');
      SplitJoin(texts[1..]);
      SplitHead(texts[0], ",", Join(texts[1..]));
      assert texts == [texts[0]] + texts[1..];
    }
  }

  lemma {:induction false} ParsePartsPointwise(texts: seq<string>, parts: seq<SequencePart>)
    requires |texts| == |parts| && forall i :: 0 <= i < |parts| ==> ParsePart(texts[i]) == Ok(parts[i])
    ensures ParseParts(texts) == Ok(parts)
  {
    hide ParsePart;
    if parts != [] {
      ParsePartsPointwise(texts[1..], parts[1..]);
      assert parts == [parts[0]] + parts[1..];
    }
  }

  /** Parsing a comma-joined printing, each part padded with any white space, gives back exactly
      the parts, and the sequence is the concatenation of their intervals. */
  lemma ParseInvertsPrint(parts: seq<SequencePart>, lefts: seq<string>, rights: seq<string>)
    requires parts != [] && |lefts| == |rights| == |parts|
    requires forall i :: 0 <= i < |parts| ==> WellFormed(parts[i])
    requires forall i :: 0 <= i < |parts| ==> AllWhitespace(lefts[i]) && AllWhitespace(rights[i])
    ensures var texts := seq(|parts|, i requires 0 <= i < |parts| => lefts[i] + PrintPart(parts[i]) + rights[i]);
      && ParseParts(Split(Join(texts), ",")) == Ok(parts)
      && ParseSequence(Join(texts)) == Ok(Expand(parts))
  {
    hide ParsePart, PrintPart, Split, Join, Expand, ParseParts, AllWhitespace, WellFormed;
    var texts := seq(|parts|, i requires 0 <= i < |parts| => lefts[i] + PrintPart(parts[i]) + rights[i]);
    forall i | 0 <= i < |parts| ensures ParsePart(texts[i]) == Ok(parts[i]) && ',' !in texts[i] {
      ParsePrintedPart(parts[i], lefts[i], rights[i]);
      PrintedPartIsTight(parts[i]);
      CommaIsNotWhitespace(lefts[i]);
      CommaIsNotWhitespace(rights[i]);
    }
    SplitJoin(texts);
    ParsePartsPointwise(texts, parts);
  }

  lemma CommaIsNotWhitespace(s: string)
    requires AllWhitespace(s)
    ensures ',' !in s
  {
    assert !IsWhitespace(',');
  }

  // ----- what is refused

  /** Two numbers in the wrong order, white space alone, a text without a number: each its own error. */
  lemma RefusedParts(a: nat, b: nat, left: string, right: string, word: string)
    requires a <= Decimal.USIZE_MAX && b <= Decimal.USIZE_MAX
    requires AllWhitespace(left) && AllWhitespace(right)
    ensures b < a ==>
      ParsePart(left + (Decimal.Render(a) + "-" + Decimal.Render(b)) + right) == Err(DescendingRange(a, b))
    ensures ParsePart(left) == Err(EmptyPart)
    ensures Tight(word) && word != "" && '-' !in word && Decimal.ParseUsize(word).None? ==>
      ParsePart(left + word + right) == Err(InvalidNumber(word))
    ensures Tight(word) && '-' !in word && Decimal.ParseUsize(word).None? ==>
      && ParsePart(left + (word + "-" + Decimal.Render(b)) + right) == Err(InvalidRange(word + "-" + Decimal.Render(b)))
      && ParsePart(left + (Decimal.Render(a) + "-" + word) + right) == Err(InvalidRange(Decimal.Render(a) + "-" + word))
  {
    hide Decimal.Render, Decimal.ParseUsize, Trim, Tight, AllWhitespace;
    var x, y := Decimal.Render(a), Decimal.Render(b);
    DigitsAreTight(x);
    DigitsAreTight(y);
    Decimal.ParseRender(a);
    Decimal.ParseRender(b);
    OneCharSeparator(x, '-');
    SplitOnceAt(x, "-", y);
    TightJoin(x, y);
    TrimPadded(left, x + "-" + y, right);
    TrimEmptyIff(left);
    if Tight(word) && '-' !in word {
      TrimPadded(left, word, right);
      NoDash(word);
      OneCharSeparator(word, '-');
      SplitOnceAt(word, "-", y);
      SplitOnceAt(x, "-", word);
      TightJoin(word, y);
      TightJoin(x, word);
      TrimPadded(left, word + "-" + y, right);
      TrimPadded(left, x + "-" + word, right);
      TrimOfItself(word);
    }
  }

  lemma TrimOfItself(word: string)
    requires Tight(word)
    ensures Trim(word) == word
  {
    TrimPadded("", word, "");
    assert "" + word + "" == word;
  }

  lemma TightJoin(x: string, y: string)
    requires Tight(x) && Tight(y)
    ensures Tight(x + "-" + y)
  {
  }

  /** A part that is refused refuses the whole sequence, and the first such part names the error. */
  lemma {:induction false} FirstErrorDecides(texts: seq<string>, i: nat)
    requires i < |texts| && ParsePart(texts[i]).Err?
    requires forall j :: 0 <= j < i ==> ParsePart(texts[j]).Ok?
    ensures ParseParts(texts) == Err(ParsePart(texts[i]).error)
  {
    hide ParsePart;
    if i > 0 {
      FirstErrorDecides(texts[1..], i - 1);
    }
  }

  predicate Covers(part: SequencePart, n: nat) {
    match part
    case Single(m) => n == m
    case Range(start, end) => start <= n <= end
  }

  /** The expansion contains exactly the numbers some part covers. */
  lemma {:induction false} ExpandCovers(parts: seq<SequencePart>, n: nat)
    ensures n in Expand(parts) <==> exists i :: 0 <= i < |parts| && Covers(parts[i], n)
  {
    if parts != [] {
      ExpandCovers(parts[1..], n);
      ExpandPartCovers(parts[0], n);
      assert forall i :: 0 < i < |parts| ==> parts[i] == parts[1..][i - 1];
      assert forall i :: 0 <= i < |parts[1..]| ==> parts[1..][i] == parts[i + 1];
    }
  }

  lemma ExpandPartCovers(part: SequencePart, n: nat)
    ensures n in ExpandPart(part) <==> Covers(part, n)
  {
    if part.Range? && part.start <= n <= part.end {
      assert ExpandPart(part)[n - part.start] == n;
    }
  }
}
