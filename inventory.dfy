/**
 The asset summaries returned by the inventory query and the classifier that
 decides which of them have no fully-qualified domain name (FQDN) on any
 network interface. An asset is "orphaned" when no hostname bound to any of
 its interfaces has a non-empty name.
 */
module Inventory {

  /** A hostname bound to a network interface; the name may be empty. */
  datatype NetworkInterfaceHostname = NetworkInterfaceHostname(id: string, name: string)

  /** A network interface: an address and the hostnames bound to it, in order. */
  datatype AssetNetworkInterface = AssetNetworkInterface(
    ipAddress: string,
    networkInterfaceHosts: seq<NetworkInterfaceHostname>)

  /** An asset summary: identity, display name and its interfaces, in order. */
  datatype Asset = Asset(id: string, name: string, assetNetworkInterfaces: seq<AssetNetworkInterface>)

  /** A full asset record as fetched, as raw text, paired with the summary it was fetched for. */
  datatype AssetResult = AssetResult(json: string, asset: Asset)

  /** No hostname of any interface of `a` has a non-empty name. */
  predicate IsOrphaned(a: Asset)
  {
    forall i, j ::
      0 <= i < |a.assetNetworkInterfaces| &&
      0 <= j < |a.assetNetworkInterfaces[i].networkInterfaceHosts| ==>
        a.assetNetworkInterfaces[i].networkInterfaceHosts[j].name == ""
  }

  /** The orphaned assets of `assets`, in their original order (duplicates kept). */
  function Orphaned(assets: seq<Asset>): seq<Asset>
  {
    if assets == [] then []
    else
      var last := assets[|assets| - 1];
      Orphaned(assets[..|assets| - 1]) + (if IsOrphaned(last) then [last] else [])
  }

  /** An asset is in the orphaned list exactly when it is in the input and orphaned. */
  lemma {:induction false} OrphanedMembers(assets: seq<Asset>, a: Asset)
    ensures a in Orphaned(assets) <==> a in assets && IsOrphaned(a)
  {
    if assets != [] {
      var init := assets[..|assets| - 1];
      OrphanedMembers(init, a);
      assert assets == init + [assets[|assets| - 1]];
    }
  }

  /** Classifying a concatenation classifies each part and keeps their order. */
  lemma {:induction false} OrphanedAppend(xs: seq<Asset>, ys: seq<Asset>)
    ensures Orphaned(xs + ys) == Orphaned(xs) + Orphaned(ys)
    decreases |ys|
  {
    if ys == [] {
      assert xs + ys == xs;
    } else {
      var init := ys[..|ys| - 1];
      OrphanedAppend(xs, init);
      assert (xs + ys)[..|xs + ys| - 1] == xs + init;
    }
  }

  /** Each asset appears in the orphaned list as often as in the input if it is orphaned, and never otherwise. */
  lemma {:induction false} OrphanedMultiplicity(assets: seq<Asset>, a: Asset)
    ensures multiset(Orphaned(assets))[a] == if IsOrphaned(a) then multiset(assets)[a] else 0
  {
    if assets != [] {
      var init := assets[..|assets| - 1];
      OrphanedMultiplicity(init, a);
      assert assets == init + [assets[|assets| - 1]];
    }
  }

  /** The total reported never exceeds the number of assets, and equals it exactly when every asset is orphaned. */
  lemma {:induction false} OrphanedLength(assets: seq<Asset>)
    ensures |Orphaned(assets)| <= |assets|
    ensures |Orphaned(assets)| == |assets| <==> forall k :: 0 <= k < |assets| ==> IsOrphaned(assets[k])
  {
    if assets != [] {
      var init := assets[..|assets| - 1];
      OrphanedLength(init);
      if |Orphaned(assets)| == |assets| {
        forall k | 0 <= k < |assets| ensures IsOrphaned(assets[k]) {
          if k < |init| { assert assets[k] == init[k]; }
        }
      }
      if forall k :: 0 <= k < |assets| ==> IsOrphaned(assets[k]) {
        assert forall k :: 0 <= k < |init| ==> init[k] == assets[k];
      }
    }
  }

  /** `a` with hostname `h` appended to the bindings of its interface `i`. */
  function AddHostname(a: Asset, i: nat, h: NetworkInterfaceHostname): (b: Asset)
    requires i < |a.assetNetworkInterfaces|
    ensures b.id == a.id && b.name == a.name
    ensures |b.assetNetworkInterfaces| == |a.assetNetworkInterfaces|
    ensures b.assetNetworkInterfaces[i].networkInterfaceHosts ==
            a.assetNetworkInterfaces[i].networkInterfaceHosts + [h]
    ensures forall k :: 0 <= k < |a.assetNetworkInterfaces| && k != i ==>
              b.assetNetworkInterfaces[k] == a.assetNetworkInterfaces[k]
  {
    var ni := a.assetNetworkInterfaces[i];
    a.(assetNetworkInterfaces := a.assetNetworkInterfaces[i := ni.(networkInterfaceHosts := ni.networkInterfaceHosts + [h])])
  }

  /** A hostname with a non-empty name, added anywhere, makes the asset not orphaned. */
  lemma NamedHostnameDisqualifies(a: Asset, i: nat, h: NetworkInterfaceHostname)
    requires i < |a.assetNetworkInterfaces| && h.name != ""
    ensures !IsOrphaned(AddHostname(a, i, h))
  {
    var b := AddHostname(a, i, h);
    var j := |a.assetNetworkInterfaces[i].networkInterfaceHosts|;
    assert b.assetNetworkInterfaces[i].networkInterfaceHosts[j] == h;
  }

  /** A hostname with an empty name never changes the classification. */
  lemma EmptyHostnameKeepsClass(a: Asset, i: nat, h: NetworkInterfaceHostname)
    requires i < |a.assetNetworkInterfaces| && h.name == ""
    ensures IsOrphaned(AddHostname(a, i, h)) <==> IsOrphaned(a)
  {
    var b := AddHostname(a, i, h);
    if IsOrphaned(a) {
      forall p, q | 0 <= p < |b.assetNetworkInterfaces| && 0 <= q < |b.assetNetworkInterfaces[p].networkInterfaceHosts|
        ensures b.assetNetworkInterfaces[p].networkInterfaceHosts[q].name == ""
      {
        if p == i && q == |a.assetNetworkInterfaces[i].networkInterfaceHosts| {
          assert b.assetNetworkInterfaces[p].networkInterfaceHosts[q] == h;
        } else {
          assert b.assetNetworkInterfaces[p].networkInterfaceHosts[q] == a.assetNetworkInterfaces[p].networkInterfaceHosts[q];
        }
      }
    }
    if IsOrphaned(b) {
      forall p, q | 0 <= p < |a.assetNetworkInterfaces| && 0 <= q < |a.assetNetworkInterfaces[p].networkInterfaceHosts|
        ensures a.assetNetworkInterfaces[p].networkInterfaceHosts[q].name == ""
      {
        assert b.assetNetworkInterfaces[p].networkInterfaceHosts[q] == a.assetNetworkInterfaces[p].networkInterfaceHosts[q];
      }
    }
  }

  /** An asset with no interfaces, or whose interfaces carry no hostnames, is orphaned. */
  lemma NoHostnamesIsOrphaned(a: Asset)
    requires forall i :: 0 <= i < |a.assetNetworkInterfaces| ==> a.assetNetworkInterfaces[i].networkInterfaceHosts == []
    ensures IsOrphaned(a)
  {
  }

  /**
   Three assets: A has a named hostname, B only empty names, C no interfaces.
   Exactly B and C form the orphaned list, in that order.
   */
  lemma DetectOnlyScenario()
    ensures
      var a := Asset("1", "A", [AssetNetworkInterface("10.0.0.1", [NetworkInterfaceHostname("h1", "alpha")])]);
      var b := Asset("2", "B", [AssetNetworkInterface("10.0.0.2", [NetworkInterfaceHostname("h2", ""), NetworkInterfaceHostname("h3", "")])]);
      var c := Asset("3", "C", []);
      Orphaned([a, b, c]) == [b, c]
  {
    var a := Asset("1", "A", [AssetNetworkInterface("10.0.0.1", [NetworkInterfaceHostname("h1", "alpha")])]);
    var b := Asset("2", "B", [AssetNetworkInterface("10.0.0.2", [NetworkInterfaceHostname("h2", ""), NetworkInterfaceHostname("h3", "")])]);
    var c := Asset("3", "C", []);
    assert !IsOrphaned(a) by {
      assert a.assetNetworkInterfaces[0].networkInterfaceHosts[0].name != "";
    }
    assert IsOrphaned(b) && IsOrphaned(c);
    assert [a][..0] == [];
    assert Orphaned([a]) == [];
    assert [a, b][..1] == [a];
    assert Orphaned([a, b]) == [b];
    assert [a, b, c][..2] == [a, b];
  }
}
