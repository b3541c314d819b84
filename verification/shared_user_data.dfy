/**
 * `placeObject` as written (main.js:394) makes the loaded model's `userData` the catalogue's
 * product object itself (`window.currentProductData`), then writes `locked` and `collides` into
 * it. Every model placed from the same product therefore shares one set of flags. This module
 * models that aliasing and exhibits its effects; `SceneStore` keeps the flags per object.
 */
module SharedUserData {
  import opened Results
  import opened Geometry
  import opened SceneStore

  /** The flags `placeObject`, `toggleLock` and `toggleObjectCollision` write into `userData`. */
  datatype Flags = Flags(locked: bool, collides: bool)

  /** A placed model and the product data object its `userData` points to. */
  datatype Placed = Placed(id: nat, product: nat)

  /** The scene as written: the flags live in the product data objects, not in the models. */
  datatype SharedScene = SharedScene(objects: seq<Placed>, data: map<nat, Flags>, selected: Option<nat>, nextId: nat)

  const NoObjects: SharedScene := SharedScene([], map[], None, 0)

  function FindPlaced(objs: seq<Placed>, id: nat): (r: Option<nat>)
    ensures r.Some? ==> r.value < |objs| && objs[r.value].id == id
  {
    if |objs| == 0 then None
    else if objs[0].id == id then Some(0)
    else match FindPlaced(objs[1..], id)
      case Some(k) => Some(k + 1)
      case None => None
  }

  /** The lock a model reports: the one in the product object its `userData` points to. */
  function LockedOf(s: SharedScene, id: nat): bool {
    match FindPlaced(s.objects, id)
    case None => false
    case Some(k) => s.objects[k].product in s.data && s.data[s.objects[k].product].locked
  }

  /**
   * `placeObject` as written: the new model shares the product's data object, whose flags are
   * reset to unlocked and colliding, and becomes the selection.
   */
  function PlaceShared(s: SharedScene, product: nat): (r: SharedScene)
    ensures |r.objects| == |s.objects| + 1 && r.objects[..|s.objects|] == s.objects
    ensures product in r.data && r.data[product] == Flags(false, true)
    ensures r.selected == Some(s.nextId)
  {
    assert (s.objects + [Placed(s.nextId, product)])[..|s.objects|] == s.objects;
    SharedScene(s.objects + [Placed(s.nextId, product)], s.data[product := Flags(false, true)],
                Some(s.nextId), s.nextId + 1)
  }

  function SelectShared(s: SharedScene, id: nat): SharedScene {
    if FindPlaced(s.objects, id).Some? then s.(selected := Some(id)) else s
  }

  /** `toggleLock` as written: flips the lock in the selected model's shared product object. */
  function ToggleLockShared(s: SharedScene): SharedScene {
    match s.selected
    case None => s
    case Some(id) =>
      match FindPlaced(s.objects, id)
      case None => s
      case Some(k) =>
        var p := s.objects[k].product;
        var f := if p in s.data then s.data[p] else Flags(false, false);
        s.(data := s.data[p := f.(locked := !f.locked)])
  }

  /** `deleteSelected` as written: refuses when the shared product object says locked. */
  function DeleteShared(s: SharedScene): SharedScene {
    match s.selected
    case None => s
    case Some(id) =>
      match FindPlaced(s.objects, id)
      case None => s
      case Some(k) =>
        if LockedOf(s, id) then s
        else s.(objects := s.objects[..k] + s.objects[k + 1..], selected := None)
  }

  /**
   * Two swings placed from the same catalogue entry: locking the second one also locks the
   * first, which then refuses to be deleted although it was never locked.
   */
  lemma LockLeaksToTwin()
    ensures var s := ToggleLockShared(PlaceShared(PlaceShared(NoObjects, 7), 7));
      LockedOf(s, 1) && LockedOf(s, 0)
      && DeleteShared(SelectShared(s, 0)) == SelectShared(s, 0)
  {
    var s1 := PlaceShared(NoObjects, 7);
    var s2 := PlaceShared(s1, 7);
    assert s2.objects == [Placed(0, 7), Placed(1, 7)];
    assert FindPlaced(s2.objects, 1) == Some(1);
    assert FindPlaced(s2.objects, 0) == Some(0);
  }

  /** Placing another copy of a product unlocks every copy already locked in the scene. */
  lemma PlacingUnlocksTwin()
    ensures var s := ToggleLockShared(PlaceShared(NoObjects, 7));
      LockedOf(s, 0) && !LockedOf(PlaceShared(s, 7), 0)
  {
    var s1 := PlaceShared(NoObjects, 7);
    assert s1.objects == [Placed(0, 7)];
    var s3 := PlaceShared(ToggleLockShared(s1), 7);
    assert s3.objects == [Placed(0, 7), Placed(1, 7)];
    assert FindPlaced(s3.objects, 0) == Some(0);
  }

  /**
   * The same two placements in the corrected store: locking the second copy leaves the first
   * unlocked and deletable.
   */
  lemma CorrectedLockStaysPut(file: string, name: Option<string>, ref: string, price: real,
                              a: Point, b: Point, boxA: Box, boxB: Box)
    ensures var s := ToggleLock(Place(Place(SceneStore.Empty, file, name, ref, price, a, boxA),
                                      file, name, ref, price, b, boxB));
      |s.objects| == 2 && s.objects[1].locked && !s.objects[0].locked
      && DeleteSelected(Select(s, s.objects[0].id)).objects == [s.objects[1]]
  {
    EmptyValid();
    var s1 := Place(SceneStore.Empty, file, name, ref, price, a, boxA);
    var s2 := Place(s1, file, name, ref, price, b, boxB);
    var s := ToggleLock(s2);
    assert SelectedIndex(s2) == Some(1) by {
      FindUnique(s2.objects, 1);
    }
    var t := Select(s, s.objects[0].id);
    FindUnique(s.objects, 0);
    assert SelectedIndex(t) == Some(0);
    CutIsWithout(s.objects, 0);
  }
}
