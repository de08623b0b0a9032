/** Identifiers of archived public-inbox emails: `{number:010}-e{epoch}-{sha}`. */
module EmailId {
  import opened Prelude
  import opened Text
  import Decimal

  datatype ParsedEmailId = ParsedEmailId(emailNum: nat, epochName: string, commitSha: string)

  function Format(emailNum: nat, epochName: string, commitSha: string): string {
    Decimal.Pad(emailNum, 10) + "-" + (("e" + epochName) + "-" + commitSha)
  }

  /** Splits into at most three parts at the first two dashes and reads the first as a number. */
  function Parse(id: string): Option<ParsedEmailId> {
    match SplitOnce(id, "-")
    case None => None
    case Some((number, rest)) =>
      match SplitOnce(rest, "-")
      case None => None
      case Some((epoch, sha)) =>
        match Decimal.ParseUsize(number)
        case None => None
        case Some(n) =>
          if !StartsWith(epoch, "e") then None
          else Some(ParsedEmailId(n, epoch[1..], sha))
  }

  lemma CutAtDash(a: string, b: string)
    requires '-' !in a
    ensures SplitOnce(a + "-" + b, "-") == Some((a, b))
  {
    OneCharSeparator(a, '-');
    SplitOnceAt(a, "-", b);
  }

  /** Parsing inverts formatting, whatever the commit id is, for every machine number,
      exactly when the epoch name has no dash. */
  lemma ParseInvertsFormat(n: nat, epoch: string, sha: string)
    requires n <= Decimal.USIZE_MAX
    ensures Parse(Format(n, epoch, sha)) == Some(ParsedEmailId(n, epoch, sha)) <==> '-' !in epoch
  {
    var number, rest := Decimal.Pad(n, 10), ("e" + epoch) + "-" + sha;
    CutAtDash(number, rest);
    Decimal.ParsePad(n, 10);
    if '-' !in epoch {
      CutAtDash("e" + epoch, sha);
      assert ("e" + epoch)[1..] == epoch;
    } else {
      FirstPartHasNoDash(rest);
    }
  }

  lemma FirstPartHasNoDash(s: string)
    ensures SplitOnce(s, "-").Some? ==> '-' !in SplitOnce(s, "-").value.0
  {
    forall i | 0 <= i < |s| && s[i] == '-' ensures MatchesAt(s, "-", i) {
      assert s[i..i + 1] == "-";
    }
  }

  /** Different numbers, epochs or commits give different identifiers. */
  lemma FormatInjective(n: nat, epoch: string, sha: string, m: nat, epoch': string, sha': string)
    requires n <= Decimal.USIZE_MAX && m <= Decimal.USIZE_MAX
    requires '-' !in epoch && '-' !in epoch'
    requires Format(n, epoch, sha) == Format(m, epoch', sha')
    ensures n == m && epoch == epoch' && sha == sha'
  {
    ParseInvertsFormat(n, epoch, sha);
    ParseInvertsFormat(m, epoch', sha');
  }

  /** The shape of an identifier: ten columns for the number, more only if it needs them. */
  lemma Shape(n: nat, epoch: string, sha: string)
    ensures var id, width := Format(n, epoch, sha), if n <= 9_999_999_999 then 10 else |Decimal.Render(n)|;
      && |id| == width + 2 + |epoch| + 1 + |sha|
      && Decimal.AllDigits(id[..width]) && Decimal.Value(id[..width]) == n
      && id[width..] == "-e" + epoch + "-" + sha
  {
    hide Decimal.Render, Decimal.Value;
    Decimal.ValueOfPad(n, 10);
    TenColumns(n);
    var id, number := Format(n, epoch, sha), Decimal.Pad(n, 10);
    assert id[..|number|] == number;
    assert id[|number|..] == "-e" + epoch + "-" + sha;
  }

  lemma TenColumns(n: nat)
    ensures n <= 9_999_999_999 <==> |Decimal.Render(n)| <= 10
  {
    Decimal.LengthIs(n, 10);
  }
}
