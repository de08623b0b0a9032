/** The progress file: overwritten from the start, never truncated. */
module ProgressFile {
  import opened Prelude

  /** Serialisation of a progress record and the reader that takes it back. */
  datatype Yaml = Yaml(render: string -> string, parse: string -> Option<string>) {
    /** What is assumed of the serialiser, on the identifiers in use: rendering is read back, and a
        longer identifier does not get a shorter text. */
    ghost predicate FaithfulOn(ids: iset<string>) {
      && (forall id :: id in ids ==> parse(render(id)) == Some(id))
      && (forall a, b :: a in ids && b in ids && |a| <= |b| ==> |render(a)| <= |render(b)|)
    }
  }

  /** Writing at offset 0 into an existing file leaves whatever lies beyond the new text. */
  function Overwrite(file: string, text: string): string {
    if |text| < |file| then text + file[|text|..] else text
  }

  function Update(yaml: Yaml, file: Option<string>, id: string): Option<string> {
    Some(Overwrite(if file.Some? then file.value else "", yaml.render(id)))
  }

  function UpdateAll(yaml: Yaml, file: Option<string>, ids: seq<string>): Option<string> {
    if ids == [] then file
    else Update(yaml, UpdateAll(yaml, file, ids[..|ids| - 1]), Last(ids))
  }

  function LastProcessedId(yaml: Yaml, file: Option<string>): Option<string> {
    if file.None? then None else yaml.parse(file.value)
  }

  /** What a history of updates should leave in the file. */
  function Latest(yaml: Yaml, file: Option<string>, ids: seq<string>): Option<string> {
    if ids == [] then file else Some(yaml.render(Last(ids)))
  }

  /** No update of the history writes a text shorter than the one it replaces. */
  ghost predicate NeverShorter(yaml: Yaml, file: Option<string>, ids: seq<string>) {
    ids == [] ||
    var older := ids[..|ids| - 1];
    && NeverShorter(yaml, file, older)
    && var replaced := Latest(yaml, file, older);
       replaced.Some? ==> |replaced.value| <= |yaml.render(Last(ids))|
  }

  lemma OverwriteIsExact(file: string, text: string)
    ensures Overwrite(file, text) == text <==> |file| <= |text|
    ensures |Overwrite(file, text)| == Max(|file|, |text|)
  {
  }

  /** The file holds exactly the latest identifier after the first `k` updates. */
  ghost predicate ExactAfter(yaml: Yaml, file: Option<string>, ids: seq<string>, k: nat)
    requires k <= |ids|
  {
    UpdateAll(yaml, file, ids[..k]) == Latest(yaml, file, ids[..k])
  }

  /** The file is exact after every update of a history if and only if no update of the history is
      shorter than what it replaces. */
  lemma {:induction false} ExactIffNeverShorter(yaml: Yaml, file: Option<string>, ids: seq<string>)
    ensures NeverShorter(yaml, file, ids) <==> forall k :: 0 <= k <= |ids| ==> ExactAfter(yaml, file, ids, k)
  {
    if ids == [] {
      assert ExactAfter(yaml, file, ids, 0);
    } else {
      var older := ids[..|ids| - 1];
      ExactIffNeverShorter(yaml, file, older);
      assert forall k :: 0 <= k <= |older| ==> older[..k] == ids[..k];
      assert forall k :: 0 <= k <= |older| ==> (ExactAfter(yaml, file, ids, k) <==> ExactAfter(yaml, file, older, k));
      assert ids[..|ids|] == ids && older[..|older|] == older;
      assert ExactAfter(yaml, file, older, |older|) <==> UpdateAll(yaml, file, older) == Latest(yaml, file, older);
      assert ExactAfter(yaml, file, ids, |ids|) <==> UpdateAll(yaml, file, ids) == Latest(yaml, file, ids);
      var before := UpdateAll(yaml, file, older);
      OverwriteIsExact(if before.Some? then before.value else "", yaml.render(Last(ids)));
    }
  }

  lemma {:induction false} UpdateAllIsLatest(yaml: Yaml, file: Option<string>, ids: seq<string>)
    requires NeverShorter(yaml, file, ids)
    ensures UpdateAll(yaml, file, ids) == Latest(yaml, file, ids)
  {
    ExactIffNeverShorter(yaml, file, ids);
    assert ExactAfter(yaml, file, ids, |ids|);
    assert ids[..|ids|] == ids;
  }

  /** Nothing in the file, and nothing written to it, is longer than `bound`. */
  ghost predicate NothingLonger(yaml: Yaml, file: Option<string>, ids: seq<string>, bound: nat) {
    (file.Some? ==> |file.value| <= bound) && forall i :: 0 <= i < |ids| ==> |yaml.render(ids[i])| <= bound
  }

  /** The file is as long as the longest text it ever held. */
  lemma {:induction false} LongestStays(yaml: Yaml, file: Option<string>, ids: seq<string>, bound: nat)
    ensures NothingLonger(yaml, UpdateAll(yaml, file, ids), [], bound) <==> NothingLonger(yaml, file, ids, bound)
  {
    if ids != [] {
      hide NothingLonger, Update;
      var older := ids[..|ids| - 1];
      LongestStays(yaml, file, older, bound);
      UpdateLength(yaml, UpdateAll(yaml, file, older), Last(ids), bound);
      NothingLongerSnoc(yaml, file, older, Last(ids), bound);
      assert ids == older + [Last(ids)];
    }
  }

  lemma UpdateLength(yaml: Yaml, file: Option<string>, id: string, bound: nat)
    ensures NothingLonger(yaml, Update(yaml, file, id), [], bound)
            <==> NothingLonger(yaml, file, [], bound) && |yaml.render(id)| <= bound
  {
    if file.Some? {
      OverwriteIsExact(file.value, yaml.render(id));
    }
  }

  lemma NothingLongerSnoc(yaml: Yaml, file: Option<string>, ids: seq<string>, id: string, bound: nat)
    ensures NothingLonger(yaml, file, ids + [id], bound)
            <==> NothingLonger(yaml, file, ids, bound) && |yaml.render(id)| <= bound
  {
    var all := ids + [id];
    assert all[|ids|] == id && forall i :: 0 <= i < |ids| ==> all[i] == ids[i];
  }

  /** At the end of a history the file holds exactly the last identifier if and only if no text it
      ever held was longer. */
  lemma ExactAtEndIff(yaml: Yaml, file: Option<string>, ids: seq<string>)
    requires ids != []
    ensures UpdateAll(yaml, file, ids) == Some(yaml.render(Last(ids)))
            <==> NothingLonger(yaml, file, ids, |yaml.render(Last(ids))|)
  {
    var older, text := ids[..|ids| - 1], yaml.render(Last(ids));
    LongestStays(yaml, file, older, |text|);
    assert ids == older + [Last(ids)];
    var before := UpdateAll(yaml, file, older);
    if before.Some? {
      OverwriteIsExact(before.value, text);
    }
  }

  lemma RenderMonotone(yaml: Yaml, domain: iset<string>, a: string, b: string)
    requires yaml.FaithfulOn(domain) && a in domain && b in domain && |a| <= |b|
    ensures |yaml.render(a)| <= |yaml.render(b)|
  {
  }

  lemma {:induction false} UpdateAllConcat(yaml: Yaml, file: Option<string>, a: seq<string>, b: seq<string>)
    ensures UpdateAll(yaml, file, a + b) == UpdateAll(yaml, UpdateAll(yaml, file, a), b)
  {
    if b == [] {
      assert a + b == a;
    } else {
      assert (a + b)[..|a + b| - 1] == a + b[..|b| - 1];
      UpdateAllConcat(yaml, file, a, b[..|b| - 1]);
    }
  }

  /** Skipping intermediate updates makes no difference to a history that is never shorter. */
  lemma {:induction false} NeverShorterPrefix(yaml: Yaml, file: Option<string>, ids: seq<string>, k: nat)
    requires NeverShorter(yaml, file, ids) && k <= |ids| && ids != []
    ensures NeverShorter(yaml, file, ids[..k])
    ensures var earlier := Latest(yaml, file, ids[..k]);
      earlier.Some? ==> |earlier.value| <= |yaml.render(Last(ids))|
  {
    var older := ids[..|ids| - 1];
    if k == |ids| {
      assert ids[..k] == ids;
    } else if older != [] {
      NeverShorterPrefix(yaml, file, older, k);
      assert older[..k] == ids[..k];
    } else {
      assert ids[..k] == older;
    }
  }

  /** The file written for an earlier identifier, if there was one. */
  function Holding(yaml: Yaml, previous: Option<string>): Option<string> {
    if previous.None? then None else Some(yaml.render(previous.value))
  }

  /** Identifiers of non-decreasing length, on a faithful serialiser, are such a history. */
  lemma {:induction false} MonotoneLengths(yaml: Yaml, previous: Option<string>, ids: seq<string>, domain: iset<string>)
    requires yaml.FaithfulOn(domain) && forall i :: 0 <= i < |ids| ==> ids[i] in domain
    requires previous.Some? ==> previous.value in domain && (ids != [] ==> |previous.value| <= |ids[0]|)
    requires forall i, j :: 0 <= i < j < |ids| ==> |ids[i]| <= |ids[j]|
    ensures NeverShorter(yaml, Holding(yaml, previous), ids)
  {
    hide Yaml.FaithfulOn;
    if ids != [] {
      var older := ids[..|ids| - 1];
      MonotoneLengths(yaml, previous, older, domain);
      if older != [] {
        RenderMonotone(yaml, domain, Last(older), Last(ids));
      } else if previous.Some? {
        RenderMonotone(yaml, domain, previous.value, Last(ids));
      }
    }
  }
}
