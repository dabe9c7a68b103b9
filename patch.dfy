/**
 The text-level patch that gives an orphaned asset a default FQDN. The fetched
 record is never parsed: it is selected when its text shows a hostname array
 whose first entry has an empty name, and then every empty first-hostname name
 field in the text is rewritten to "<asset name>.<domain>".
 */
module Patch {
  import opened Text
  import opened Inventory

  /** Selects a record: a hostname array whose first entry has an empty name and another field after it. */
  const DetectionMarker: string := "NetworkInterfaceHasHostname\":[{\"name\":\"\","

  /** What is rewritten in a selected record: the key, the array, and the empty name of its first entry. */
  const ReplacePattern: string := "\"NetworkInterfaceHasHostname\":[{\"name\":\"\""

  /** The synthesised FQDN. */
  function Fqdn(assetName: string, domain: string): string
  {
    assetName + "." + domain
  }

  /** The replace pattern with the empty name filled in with the FQDN. */
  function Replacement(assetName: string, domain: string): (r: string)
    ensures |r| == |ReplacePattern| + |Fqdn(assetName, domain)|
    ensures r[..|ReplacePattern| - 1] == ReplacePattern[..|ReplacePattern| - 1]
    ensures r[|ReplacePattern| - 1..|r| - 1] == Fqdn(assetName, domain)
    ensures r[|r| - 1] == '"'
  {
    "\"NetworkInterfaceHasHostname\":[{\"name\":\"" + assetName + "." + domain + "\""
  }

  datatype PatchResult = NoOp | Patched(record: string)

  /** The record after the patch: every occurrence of the replace pattern rewritten. */
  function PatchedText(assetName: string, domain: string, record: string): string
  {
    ReplaceAll(record, ReplacePattern, Replacement(assetName, domain))
  }

  /** The per-record step of Process: nothing unless the marker is found, else the replace-all. */
  function TryPatch(assetName: string, domain: string, record: string): PatchResult
  {
    if Index(record, DetectionMarker) != -1 then Patched(PatchedText(assetName, domain, record))
    else NoOp
  }

  /** A record is patched exactly when the detection marker occurs in it; a record without it yields nothing. */
  lemma TryPatchSelects(assetName: string, domain: string, record: string)
    ensures TryPatch(assetName, domain, record).Patched? <==> Occurs(record, DetectionMarker)
    ensures !Occurs(record, DetectionMarker) ==> TryPatch(assetName, domain, record) == NoOp
  {
    ContainsIffOccurs(record, DetectionMarker);
  }

  /**
   The patched record keeps every piece of text between occurrences of the
   replace pattern, in order, and has the replacement where each occurrence was.
   */
  lemma TryPatchKeepsOutside(assetName: string, domain: string, record: string)
    requires TryPatch(assetName, domain, record).Patched?
    ensures var pieces := Split(record, ReplacePattern);
      && Join(pieces, ReplacePattern) == record
      && TryPatch(assetName, domain, record).record == Join(pieces, Replacement(assetName, domain))
      && (forall k :: 0 <= k < |pieces| ==> !Occurs(pieces[k], ReplacePattern))
      && |pieces| == Count(record, ReplacePattern) + 1
  {
    JoinSplit(record, ReplacePattern);
    ReplaceAllIsJoin(record, ReplacePattern, Replacement(assetName, domain));
    SplitPiecesFree(record, ReplacePattern);
    SplitCount(record, ReplacePattern);
  }

  /** Each rewritten occurrence adds the FQDN's length. */
  lemma TryPatchLength(assetName: string, domain: string, record: string)
    requires TryPatch(assetName, domain, record).Patched?
    ensures |TryPatch(assetName, domain, record).record| ==
            |record| + Count(record, ReplacePattern) * (|assetName| + 1 + |domain|)
  {
    var rep := Replacement(assetName, domain);
    ReplaceAllLength(record, ReplacePattern, rep);
    assert |rep| - |ReplacePattern| == |assetName| + 1 + |domain|;
    assert TryPatch(assetName, domain, record).record == ReplaceAll(record, ReplacePattern, rep);
  }

  /** Without an occurrence of the replace pattern the text is returned unchanged. */
  lemma PatchedTextWithoutPattern(assetName: string, domain: string, record: string)
    requires !Occurs(record, ReplacePattern)
    ensures PatchedText(assetName, domain, record) == record
  {
    ReplaceAllAbsent(record, ReplacePattern, Replacement(assetName, domain));
  }

  /**
   When the detection marker is preceded by the opening quote of its key, the
   replace pattern occurs one place earlier, so the selected record really is
   changed, and grows.
   */
  lemma QuotedMarkerIsRewritten(assetName: string, domain: string, record: string, i: nat)
    requires OccursAt(record, DetectionMarker, i) && 0 < i && record[i - 1] == '"'
    ensures OccursAt(record, ReplacePattern, i - 1)
    ensures TryPatch(assetName, domain, record).Patched?
    ensures |TryPatch(assetName, domain, record).record| > |record|
  {
    QuotedMarkerIsPattern(record, i);
    TryPatchSelects(assetName, domain, record);
    ReplaceAllGrows(record, ReplacePattern, Replacement(assetName, domain));
  }

  /** The detection marker behind a quote is an occurrence of the replace pattern. */
  lemma QuotedMarkerIsPattern(record: string, i: nat)
    requires OccursAt(record, DetectionMarker, i) && 0 < i && record[i - 1] == '"'
    ensures OccursAt(record, ReplacePattern, i - 1)
  {
    PatternIsQuotedMarker();
    var n := |DetectionMarker|;
    assert record[i - 1..i - 1 + n] == [record[i - 1]] + record[i..i + n][..n - 1];
  }

  /** The replace pattern is the detection marker without its trailing comma, behind the opening quote of the key. */
  lemma PatternIsQuotedMarker()
    ensures ReplacePattern == ['"'] + DetectionMarker[..|DetectionMarker| - 1]
  {
    var stem := DetectionMarker[..|DetectionMarker| - 1];
    assert |stem| == 40;
    forall k | 0 <= k < 40 ensures stem[k] == DetectionMarker[k] {}
    assert ReplacePattern[1..] == stem;
  }

  /** A binding entry whose empty name is its last field. */
  const LastFieldEmptyName: string := "{\"NetworkInterfaceHasHostname\":[{\"name\":\"\"}]}"

  /** The detection marker asks for a comma after the empty name, so it is absent from that entry. */
  lemma LastFieldEmptyNameLacksMarker()
    ensures !Occurs(LastFieldEmptyName, DetectionMarker)
  {
    var record := LastFieldEmptyName;
    assert |record| == 45 && |DetectionMarker| == 41 && DetectionMarker[40] == ',';
    assert record[40] == '"' && record[41] == '"' && record[42] == '}' && record[43] == ']' && record[44] == '}';
    MismatchNotAt(record, DetectionMarker, 0, 40);
    MismatchNotAt(record, DetectionMarker, 1, 40);
    MismatchNotAt(record, DetectionMarker, 2, 40);
    MismatchNotAt(record, DetectionMarker, 3, 40);
    MismatchNotAt(record, DetectionMarker, 4, 40);
  }

  /** Such a record is never selected, although its first hostname has an empty name. */
  lemma LastFieldEmptyNameNotSelected(assetName: string, domain: string)
    ensures TryPatch(assetName, domain, LastFieldEmptyName) == NoOp
  {
    LastFieldEmptyNameLacksMarker();
    TryPatchSelects(assetName, domain, LastFieldEmptyName);
  }

  /**
   A record with a single occurrence of the replace pattern, at `i`: the patched
   record is the same text with only that name field filled in.
   */
  lemma TryPatchSingleOccurrence(assetName: string, domain: string, record: string, i: nat)
    requires Occurs(record, DetectionMarker)
    requires OccursAt(record, ReplacePattern, i)
    requires forall j :: 0 <= j < i ==> !OccursAt(record, ReplacePattern, j)
    requires !Occurs(record[i + |ReplacePattern|..], ReplacePattern)
    ensures TryPatch(assetName, domain, record) ==
            Patched(record[..i] + Replacement(assetName, domain) + record[i + |ReplacePattern|..])
  {
    TryPatchSelects(assetName, domain, record);
    ReplaceAllOne(record, ReplacePattern, Replacement(assetName, domain), i);
  }

  /**
   A record with two occurrences of the replace pattern, say on two interfaces:
   both name fields are rewritten to the same FQDN.
   */
  lemma TryPatchTwoOccurrences(assetName: string, domain: string, record: string, i: nat, i2: nat)
    requires Occurs(record, DetectionMarker)
    requires OccursAt(record, ReplacePattern, i) && OccursAt(record, ReplacePattern, i2)
    requires i + |ReplacePattern| <= i2
    requires forall j :: 0 <= j < i ==> !OccursAt(record, ReplacePattern, j)
    requires forall j :: i + |ReplacePattern| <= j < i2 ==> !OccursAt(record, ReplacePattern, j)
    requires !Occurs(record[i2 + |ReplacePattern|..], ReplacePattern)
    ensures var rep := Replacement(assetName, domain);
      TryPatch(assetName, domain, record) ==
      Patched(record[..i] + rep + record[i + |ReplacePattern|..i2] + rep + record[i2 + |ReplacePattern|..])
  {
    TryPatchSelects(assetName, domain, record);
    ReplaceAllTwo(record, ReplacePattern, Replacement(assetName, domain), i, i2);
  }

  /** A fetched record to be written back, with the asset it belongs to. */
  datatype Update = Update(asset: Asset, body: string)

  /** The write-back one fetched record gives rise to: its patched text, or nothing. */
  function UpdateOf(r: AssetResult, domain: string): seq<Update>
  {
    match TryPatch(r.asset.name, domain, r.json)
    case Patched(body) => [Update(r.asset, body)]
    case NoOp => []
  }

  /** One record yields one update, its patched text for its asset, exactly when it carries the marker, and none otherwise. */
  lemma UpdateOfSelects(r: AssetResult, domain: string)
    ensures UpdateOf(r, domain) ==
            if Occurs(r.json, DetectionMarker) then [Update(r.asset, PatchedText(r.asset.name, domain, r.json))] else []
  {
    TryPatchSelects(r.asset.name, domain, r.json);
  }

  /** The contributions `f` makes for each record, concatenated in the order the records arrive. */
  function Collect(results: seq<AssetResult>, f: AssetResult -> seq<Update>): seq<Update>
  {
    if results == [] then []
    else Collect(results[..|results| - 1], f) + f(results[|results| - 1])
  }

  lemma {:induction false} CollectAppend(xs: seq<AssetResult>, ys: seq<AssetResult>, f: AssetResult -> seq<Update>)
    ensures Collect(xs + ys, f) == Collect(xs, f) + Collect(ys, f)
    decreases |ys|
  {
    if ys == [] {
      assert xs + ys == xs;
    } else {
      CollectAppend(xs, ys[..|ys| - 1], f);
      assert (xs + ys)[..|xs + ys| - 1] == xs + ys[..|ys| - 1];
    }
  }

  lemma {:induction false} CollectIncludes(results: seq<AssetResult>, f: AssetResult -> seq<Update>, k: nat, u: Update)
    requires k < |results| && u in f(results[k])
    ensures u in Collect(results, f)
  {
    var init := results[..|results| - 1];
    if k < |init| {
      CollectIncludes(init, f, k, u);
      assert init[k] == results[k];
    }
  }

  lemma {:induction false} CollectFrom(results: seq<AssetResult>, f: AssetResult -> seq<Update>, u: Update)
    requires u in Collect(results, f)
    ensures exists k :: 0 <= k < |results| && u in f(results[k])
  {
    var init := results[..|results| - 1];
    if u in Collect(init, f) {
      CollectFrom(init, f, u);
      var k :| 0 <= k < |init| && u in f(init[k]);
      assert results[k] == init[k];
    } else {
      assert u in f(results[|results| - 1]);
    }
  }

  lemma {:induction false} CollectLength(results: seq<AssetResult>, f: AssetResult -> seq<Update>)
    requires forall k :: 0 <= k < |results| ==> |f(results[k])| <= 1
    ensures |Collect(results, f)| <= |results|
    ensures |Collect(results, f)| == |results| <==> forall k :: 0 <= k < |results| ==> |f(results[k])| == 1
  {
    if results != [] {
      var init := results[..|results| - 1];
      assert forall k :: 0 <= k < |init| ==> init[k] == results[k];
      CollectLength(init, f);
      if |Collect(results, f)| == |results| {
        forall k | 0 <= k < |results| ensures |f(results[k])| == 1 {
          if k < |init| { assert results[k] == init[k]; }
        }
      }
    }
  }

  /** Taking the same record out of two arrangements of the same records leaves arrangements of the same records. */
  lemma MultisetRemove(init: seq<AssetResult>, x: AssetResult, ys: seq<AssetResult>, j: nat)
    requires multiset(init + [x]) == multiset(ys) && j < |ys| && ys[j] == x
    ensures multiset(init) == multiset(ys[..j] + ys[j + 1..])
  {
    var pre, post := ys[..j], ys[j + 1..];
    assert ys == pre + [x] + post;
    forall z ensures multiset(init)[z] == multiset(pre + post)[z] {
      assert multiset(init + [x])[z] == multiset(init)[z] + multiset([x])[z];
      assert multiset(ys)[z] == multiset(pre + post)[z] + multiset([x])[z];
    }
  }

  /** Cutting a sequence around position `j`. */
  lemma SpliceAt(ys: seq<AssetResult>, j: nat)
    requires j < |ys|
    ensures ys == ys[..j] + [ys[j]] + ys[j + 1..]
  {
  }

  /** A record in the middle contributes its part to the collected multiset, wherever it stands. */
  lemma CollectSplice(pre: seq<AssetResult>, x: AssetResult, post: seq<AssetResult>, f: AssetResult -> seq<Update>)
    ensures multiset(Collect(pre + [x] + post, f)) == multiset(Collect(pre + post, f)) + multiset(f(x))
  {
    CollectAppend(pre, [x], f);
    CollectAppend(pre + [x], post, f);
    CollectAppend(pre, post, f);
    assert [x][..0] == [];
  }

  /** Reordering the records reorders the contributions and nothing more. */
  lemma {:induction false} CollectPermutation(xs: seq<AssetResult>, ys: seq<AssetResult>, f: AssetResult -> seq<Update>)
    requires multiset(xs) == multiset(ys)
    ensures multiset(Collect(xs, f)) == multiset(Collect(ys, f))
    decreases |xs|
  {
    if xs == [] {
      assert |ys| == |multiset(ys)| == 0;
    } else {
      var init, x := xs[..|xs| - 1], xs[|xs| - 1];
      assert xs == init + [x];
      assert x in multiset(ys);
      var j :| 0 <= j < |ys| && ys[j] == x;
      MultisetRemove(init, x, ys, j);
      CollectPermutation(init, ys[..j] + ys[j + 1..], f);
      SpliceAt(ys, j);
      CollectSplice(ys[..j], x, ys[j + 1..], f);
    }
  }

  /** The updates the patch phase dispatches for `results`, in the order the results arrive. */
  function PlannedUpdates(results: seq<AssetResult>, domain: string): seq<Update>
  {
    Collect(results, r => UpdateOf(r, domain))
  }

  /** Planning distributes over concatenation: updates come in the order their records arrive. */
  lemma PlannedUpdatesAppend(xs: seq<AssetResult>, ys: seq<AssetResult>, domain: string)
    ensures PlannedUpdates(xs + ys, domain) == PlannedUpdates(xs, domain) + PlannedUpdates(ys, domain)
  {
    CollectAppend(xs, ys, r => UpdateOf(r, domain));
  }

  /** The order in which the fetched records arrive changes the order of the writes, not which writes are made. */
  lemma PlannedUpdatesPermutation(xs: seq<AssetResult>, ys: seq<AssetResult>, domain: string)
    requires multiset(xs) == multiset(ys)
    ensures multiset(PlannedUpdates(xs, domain)) == multiset(PlannedUpdates(ys, domain))
  {
    CollectPermutation(xs, ys, r => UpdateOf(r, domain));
  }

  /** Every record that carries the marker has its update, for its asset, among the planned ones. */
  lemma PlannedUpdatesIncludes(results: seq<AssetResult>, domain: string, k: nat)
    requires k < |results| && Occurs(results[k].json, DetectionMarker)
    ensures Update(results[k].asset, PatchedText(results[k].asset.name, domain, results[k].json)) in PlannedUpdates(results, domain)
  {
    UpdateOfSelects(results[k], domain);
    CollectIncludes(results, r => UpdateOf(r, domain), k,
      Update(results[k].asset, PatchedText(results[k].asset.name, domain, results[k].json)));
  }

  /** One update per record at most, and one per record exactly when every record carries the marker. */
  lemma PlannedUpdatesCount(results: seq<AssetResult>, domain: string)
    ensures |PlannedUpdates(results, domain)| <= |results|
    ensures |PlannedUpdates(results, domain)| == |results| <==>
            forall k :: 0 <= k < |results| ==> Occurs(results[k].json, DetectionMarker)
  {
    var f := r => UpdateOf(r, domain);
    forall k | 0 <= k < |results|
      ensures |f(results[k])| <= 1
      ensures |f(results[k])| == 1 <==> Occurs(results[k].json, DetectionMarker)
    {
      UpdateOfSelects(results[k], domain);
    }
    CollectLength(results, f);
  }

  /** Each planned update is the patched text, for its asset, of a record that carries the marker. */
  lemma PlannedUpdatesArePatches(results: seq<AssetResult>, domain: string, u: Update)
    requires u in PlannedUpdates(results, domain)
    ensures exists k :: 0 <= k < |results| && Occurs(results[k].json, DetectionMarker) &&
                        u == Update(results[k].asset, PatchedText(results[k].asset.name, domain, results[k].json))
  {
    CollectFrom(results, r => UpdateOf(r, domain), u);
    var k :| 0 <= k < |results| && u in UpdateOf(results[k], domain);
    UpdateOfSelects(results[k], domain);
  }
}
