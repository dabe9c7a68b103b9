/**
 The two passes of Process, run one after the other. Classification walks the
 queried assets, keeps the orphaned ones in order and dispatches one detail
 fetch for each; the patch pass takes the fetched records in the order they
 arrive and dispatches one write-back per record that carries the detection
 marker. Dispatching is recorded as a list of requests or updates; the
 concurrent tasks that carry them out are not part of this model.
 */
module Process {
  import opened Text
  import opened Inventory
  import opened Session
  import opened Patch

  /**
   Classification: for each asset a flag is raised by any hostname with a
   non-empty name (the scan does not stop early); an asset that never raises it
   is appended to `orphaned` and its detail fetch is dispatched at once,
   whether or not the run goes on to update anything.
   */
  method CollectOrphaned(c: Client, assetsList: seq<Asset>) returns (orphaned: seq<Asset>, fetches: seq<Request>)
    ensures orphaned == Orphaned(assetsList)
    ensures |fetches| == |orphaned|
    ensures forall k :: 0 <= k < |fetches| ==> fetches[k] == DetailRequest(c, orphaned[k])
  {
    orphaned, fetches := [], [];
    for n := 0 to |assetsList|
      invariant orphaned == Orphaned(assetsList[..n])
      invariant |fetches| == |orphaned|
      invariant forall k :: 0 <= k < |fetches| ==> fetches[k] == DetailRequest(c, orphaned[k])
    {
      var v := assetsList[n];
      var hasFqdn := false;
      for i := 0 to |v.assetNetworkInterfaces|
        invariant hasFqdn <==> exists p, q ::
          0 <= p < i && 0 <= q < |v.assetNetworkInterfaces[p].networkInterfaceHosts| &&
          v.assetNetworkInterfaces[p].networkInterfaceHosts[q].name != ""
      {
        var ni := v.assetNetworkInterfaces[i];
        for j := 0 to |ni.networkInterfaceHosts|
          invariant hasFqdn <==>
            (exists p, q ::
              0 <= p < i && 0 <= q < |v.assetNetworkInterfaces[p].networkInterfaceHosts| &&
              v.assetNetworkInterfaces[p].networkInterfaceHosts[q].name != "") ||
            (exists q :: 0 <= q < j && ni.networkInterfaceHosts[q].name != "")
        {
          if ni.networkInterfaceHosts[j].name != "" {
            hasFqdn := true;
          }
        }
      }
      assert assetsList[..n + 1][..n] == assetsList[..n];
      if !hasFqdn {
        orphaned := orphaned + [v];
        fetches := fetches + [DetailRequest(c, v)];
      }
    }
    assert assetsList[..|assetsList|] == assetsList;
  }

  /**
   The patch pass: for each fetched record, in arrival order, look for the
   detection marker and, when it is there, dispatch the rewritten record as a
   write-back for its asset. `dispatched` counts the writes, which is the number
   of acknowledgements the collection loop that follows must wait for.
   */
  method PatchPhase(results: seq<AssetResult>, domain: string) returns (updates: seq<Update>, dispatched: nat)
    ensures updates == PlannedUpdates(results, domain)
    ensures dispatched == |updates| && dispatched <= |results|
    ensures dispatched == |results| <==> forall k :: 0 <= k < |results| ==> Occurs(results[k].json, DetectionMarker)
  {
    updates, dispatched := [], 0;
    for n := 0 to |results|
      invariant updates == PlannedUpdates(results[..n], domain)
      invariant dispatched == |updates|
    {
      var assetDetails := results[n];
      var idx := Index(assetDetails.json, DetectionMarker);
      if idx != -1 {
        var changed := ReplaceAll(assetDetails.json, ReplacePattern, Replacement(assetDetails.asset.name, domain));
        updates := updates + [Update(assetDetails.asset, changed)];
        dispatched := dispatched + 1;
      }
      assert results[..n + 1][..n] == results[..n];
    }
    assert results[..|results|] == results;
    PlannedUpdatesCount(results, domain);
  }

  /**
   The acknowledgement loop of Process as written: it waits for one
   acknowledgement per orphaned asset, not per dispatched write.
   */
  function AcksAwaitedAsWritten(orphaned: seq<Asset>): nat
  {
    |orphaned|
  }

  /**
   One orphaned asset whose fetched record has no detection marker: no write is
   dispatched, yet the loop as written waits for one acknowledgement, which
   never comes.
   */
  lemma AckLoopOutwaitsWrites()
    ensures
      var b := Asset("2", "B", []);
      var results := [AssetResult("{\"id\":\"2\"}", b)];
      PlannedUpdates(results, "example.com") == [] && AcksAwaitedAsWritten([b]) == 1
  {
    var b := Asset("2", "B", []);
    var results := [AssetResult("{\"id\":\"2\"}", b)];
    assert forall i :: !OccursAt(results[0].json, DetectionMarker, i);
    TryPatchSelects(b.name, "example.com", results[0].json);
    assert results[..0] == [];
  }
}
