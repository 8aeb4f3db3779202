/**
 * The version picker built in `MainWindow.initUI`: release versions of the
 * game labelled `Vanilla <id>`, then stable Fabric versions labelled
 * `Fabric <version>`, each item carrying the descriptor it came from.
 */
module Menu {

  /** An entry of `get_version_list()`: its `id` and its `type` (`"release"`, `"snapshot"`, ...). */
  datatype Release = Release(id: string, kind: string)

  /** An entry of `fabric.get_all_minecraft_versions()`: its `version` and its `stable` flag. */
  datatype FabricRelease = FabricRelease(version: string, stable: bool)

  /** The item data handed to the worker: one of the two descriptor shapes. */
  datatype Descriptor = Vanilla(release: Release) | Fabric(fabric: FabricRelease)

  /** One item of the combo box: its text and its data. */
  datatype Item = Item(text: string, data: Descriptor)

  const VanillaPrefix: string := "Vanilla "
  const FabricPrefix: string := "Fabric "

  /** One item per release-type version, in list order, labelled with the Vanilla prefix and its id. */
  function VanillaItems(vs: seq<Release>): (r: seq<Item>)
    ensures |r| <= |vs|
    ensures forall it :: it in r ==>
              && it.data.Vanilla?
              && it.data.release in vs
              && it.data.release.kind == "release"
              && it.text == VanillaPrefix + it.data.release.id
    ensures forall v :: v in vs && v.kind == "release" ==> Item(VanillaPrefix + v.id, Vanilla(v)) in r
    decreases |vs|
  {
    if |vs| == 0 then []
    else
      var rest := VanillaItems(vs[1..]);
      if vs[0].kind == "release" then [Item(VanillaPrefix + vs[0].id, Vanilla(vs[0]))] + rest else rest
  }

  /** One item per stable Fabric game version, in list order, labelled with the Fabric prefix and its version. */
  function FabricItems(fs: seq<FabricRelease>): (r: seq<Item>)
    ensures |r| <= |fs|
    ensures forall it :: it in r ==>
              && it.data.Fabric?
              && it.data.fabric in fs
              && it.data.fabric.stable
              && it.text == FabricPrefix + it.data.fabric.version
    ensures forall f :: f in fs && f.stable ==> Item(FabricPrefix + f.version, Fabric(f)) in r
    decreases |fs|
  {
    if |fs| == 0 then []
    else
      var rest := FabricItems(fs[1..]);
      if fs[0].stable then [Item(FabricPrefix + fs[0].version, Fabric(fs[0]))] + rest else rest
  }

  /**
   * Adding one version at the end of the list adds its item, if any, at the
   * end of the Vanilla items. With `VanillaItems([]) == []` this fixes the
   * order and the number of the items: one per release entry, in list order.
   */
  lemma {:induction false} VanillaItemsSnoc(vs: seq<Release>, v: Release)
    ensures VanillaItems(vs + [v]) ==
              VanillaItems(vs) + (if v.kind == "release" then [Item(VanillaPrefix + v.id, Vanilla(v))] else [])
    decreases |vs|
  {
    if |vs| == 0 {
      assert vs + [v] == [v];
    } else {
      assert (vs + [v])[1..] == vs[1..] + [v];
      VanillaItemsSnoc(vs[1..], v);
    }
  }

  /**
   * Adding one Fabric version at the end of the list adds its item, if any, at
   * the end of the Fabric items: one item per stable entry, in list order.
   */
  lemma {:induction false} FabricItemsSnoc(fs: seq<FabricRelease>, f: FabricRelease)
    ensures FabricItems(fs + [f]) ==
              FabricItems(fs) + (if f.stable then [Item(FabricPrefix + f.version, Fabric(f))] else [])
    decreases |fs|
  {
    if |fs| == 0 {
      assert fs + [f] == [f];
    } else {
      assert (fs + [f])[1..] == fs[1..] + [f];
      FabricItemsSnoc(fs[1..], f);
    }
  }

  /** No Fabric item precedes a Vanilla item. */
  ghost predicate VanillaFirst(items: seq<Item>) {
    forall i, j :: 0 <= i < |items| && 0 <= j < |items| && items[i].data.Vanilla? && items[j].data.Fabric? ==> i < j
  }

  /**
   * The whole picker: the Vanilla items followed by the Fabric items. An item is
   * in it exactly when it is a release labelled with the Vanilla prefix and its
   * id, or a stable Fabric version labelled with the Fabric prefix and its
   * version, and every Vanilla item comes before every Fabric item.
   */
  function BuildMenu(vs: seq<Release>, fs: seq<FabricRelease>): (r: seq<Item>)
    ensures forall it :: it in r <==>
      || (it.data.Vanilla? && it.data.release in vs && it.data.release.kind == "release"
          && it.text == VanillaPrefix + it.data.release.id)
      || (it.data.Fabric? && it.data.fabric in fs && it.data.fabric.stable
          && it.text == FabricPrefix + it.data.fabric.version)
    ensures VanillaFirst(r)
  {
    VanillaItems(vs) + FabricItems(fs)
  }
}
