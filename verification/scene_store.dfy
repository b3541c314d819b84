/**
 * The scene store: the objects placed in the playground, the running budget `totalPrice`, and
 * the current selection, with the operations that edit them. Every object keeps its own flags
 * and price; the budget is always the sum of the prices in the scene.
 */
module SceneStore {
  import opened Results
  import opened Geometry
  import opened JsNumber

  /** A model loaded from a file (catalogue or imported), or a floor with its area and outline. */
  datatype Kind = Model(file: string) | Floor(area: real, outline: seq<Point>)

  /**
   * One placed object. `id` stands for the object's identity; `box` is its world bounding box
   * as three.js computes it from the loaded geometry.
   */
  datatype SceneObject = SceneObject(
    id: nat,
    kind: Kind,
    name: Option<string>,
    ref: string,
    price: real,
    locked: bool,
    collides: bool,
    position: Point,
    box: Box)

  /** `objectsInScene`, `totalPrice` and `selectedObject`; `nextId` names the next new object. */
  datatype Scene = Scene(objects: seq<SceneObject>, total: real, selected: Option<nat>, nextId: nat)

  const Empty: Scene := Scene([], 0.0, None, 0)

  /** The sum of the prices of `objs`. */
  function Sum(objs: seq<SceneObject>): real {
    if |objs| == 0 then 0.0 else Sum(objs[..|objs| - 1]) + objs[|objs| - 1].price
  }

  ghost predicate UniqueIds(objs: seq<SceneObject>) {
    forall i, j :: 0 <= i < j < |objs| ==> objs[i].id != objs[j].id
  }

  ghost predicate IdsBelow(objs: seq<SceneObject>, n: nat) {
    forall i :: 0 <= i < |objs| ==> objs[i].id < n
  }

  /** The position of the object with identity `id`, if it is in the scene. */
  function Find(objs: seq<SceneObject>, id: nat): (r: Option<nat>)
    ensures r.Some? ==> r.value < |objs| && objs[r.value].id == id
    ensures r.None? <==> forall i :: 0 <= i < |objs| ==> objs[i].id != id
  {
    if |objs| == 0 then None
    else if objs[0].id == id then Some(0)
    else match Find(objs[1..], id)
      case Some(k) => Some(k + 1)
      case None =>
        assert forall i :: 1 <= i < |objs| ==> objs[i] == objs[1..][i - 1];
        None
  }

  /**
   * The store's invariant: identities are distinct and below `nextId`, the budget is the sum of
   * the prices in the scene, and a selection names an object in the scene.
   */
  ghost predicate Valid(s: Scene) {
    && UniqueIds(s.objects)
    && IdsBelow(s.objects, s.nextId)
    && s.total == Sum(s.objects)
    && (s.selected.Some? ==> Find(s.objects, s.selected.value).Some?)
  }

  lemma EmptyValid()
    ensures Valid(Empty)
  {
  }

  /** Where the selected object sits in `objects`, if there is a selection in the scene. */
  function SelectedIndex(s: Scene): (r: Option<nat>)
    ensures r.Some? ==> s.selected.Some? && r.value < |s.objects| && s.objects[r.value].id == s.selected.value
    ensures Valid(s) && s.selected.Some? ==> r.Some?
  {
    match s.selected
    case None => None
    case Some(id) => Find(s.objects, id)
  }

  lemma {:induction false} SumConcat(a: seq<SceneObject>, b: seq<SceneObject>)
    ensures Sum(a + b) == Sum(a) + Sum(b)
    decreases |b|
  {
    if |b| == 0 {
      assert a + b == a;
    } else {
      assert (a + b)[..|a + b| - 1] == a + b[..|b| - 1];
      SumConcat(a, b[..|b| - 1]);
    }
  }

  lemma SumSingle(o: SceneObject)
    ensures Sum([o]) == o.price
  {
    assert [o][..0] == [];
  }

  /** Replacing one object changes the sum by the difference of the two prices. */
  lemma SumUpdate(objs: seq<SceneObject>, k: nat, o: SceneObject)
    requires k < |objs|
    ensures Sum(objs[k := o]) == Sum(objs) - objs[k].price + o.price
  {
    var a, b := objs[..k], objs[k + 1..];
    assert objs == (a + [objs[k]]) + b;
    assert objs[k := o] == (a + [o]) + b;
    SumConcat(a + [objs[k]], b);
    SumConcat(a + [o], b);
    SumConcat(a, [objs[k]]);
    SumConcat(a, [o]);
    SumSingle(objs[k]);
    SumSingle(o);
  }

  /** Removing one object lowers the sum by its price. */
  lemma SumRemove(objs: seq<SceneObject>, k: nat)
    requires k < |objs|
    ensures Sum(objs[..k] + objs[k + 1..]) == Sum(objs) - objs[k].price
  {
    var a, b := objs[..k], objs[k + 1..];
    assert objs == (a + [objs[k]]) + b;
    SumConcat(a + [objs[k]], b);
    SumConcat(a, [objs[k]]);
    SumConcat(a, b);
    SumSingle(objs[k]);
  }

  /** The objects of `objs` other than the one with identity `id`, in order. */
  function Without(objs: seq<SceneObject>, id: nat): seq<SceneObject> {
    if |objs| == 0 then []
    else (if objs[0].id == id then [] else [objs[0]]) + Without(objs[1..], id)
  }

  lemma {:induction false} WithoutAbsent(objs: seq<SceneObject>, id: nat)
    requires forall i :: 0 <= i < |objs| ==> objs[i].id != id
    ensures Without(objs, id) == objs
    decreases |objs|
  {
    if |objs| > 0 {
      WithoutAbsent(objs[1..], id);
    }
  }

  /** With distinct identities, cutting out position `k` removes exactly that object. */
  lemma {:induction false} CutIsWithout(objs: seq<SceneObject>, k: nat)
    requires UniqueIds(objs) && k < |objs|
    ensures objs[..k] + objs[k + 1..] == Without(objs, objs[k].id)
    decreases k
  {
    var id := objs[k].id;
    if k == 0 {
      WithoutAbsent(objs[1..], id);
    } else {
      assert UniqueIds(objs[1..]);
      CutIsWithout(objs[1..], k - 1);
      assert objs[1..][k - 1] == objs[k];
      assert objs[..k] + objs[k + 1..] == [objs[0]] + (objs[1..][..k - 1] + objs[1..][k..]);
    }
  }

  lemma CutKeepsIds(objs: seq<SceneObject>, k: nat, n: nat)
    requires UniqueIds(objs) && IdsBelow(objs, n) && k < |objs|
    ensures var c := objs[..k] + objs[k + 1..];
      UniqueIds(c) && IdsBelow(c, n) && forall i :: 0 <= i < |c| ==> c[i].id != objs[k].id
  {
    var c := objs[..k] + objs[k + 1..];
    assert forall i :: 0 <= i < |c| ==> c[i] == (if i < k then objs[i] else objs[i + 1]);
  }

  /**
   * Adds a new object with fresh identity, unlocked and colliding, and adds its price to the
   * budget; `select` says whether it becomes the selection.
   */
  function Add(s: Scene, kind: Kind, name: Option<string>, ref: string, price: real,
               position: Point, box: Box, select: bool): (r: Scene)
    ensures |r.objects| == |s.objects| + 1 && r.objects[..|s.objects|] == s.objects
    ensures var o := r.objects[|s.objects|];
      o.kind == kind && o.price == price && !o.locked && o.collides && o.box == box
      && (Valid(s) ==> Find(s.objects, o.id).None?)
    ensures r.selected == (if select then Some(r.objects[|s.objects|].id) else s.selected)
    ensures Valid(s) ==> Valid(r) && r.total == s.total + price
  {
    var o := SceneObject(s.nextId, kind, name, ref, price, false, true, position, box);
    var sel := if select then Some(s.nextId) else s.selected;
    AppendKeepsValid(s, o, sel);
    Scene(s.objects + [o], s.total + price, sel, s.nextId + 1)
  }

  lemma AppendKeepsValid(s: Scene, o: SceneObject, sel: Option<nat>)
    requires o.id == s.nextId && (sel == s.selected || sel == Some(o.id))
    ensures (s.objects + [o])[..|s.objects|] == s.objects
    ensures Valid(s) ==> Find(s.objects, o.id).None?
    ensures Valid(s) ==> Valid(Scene(s.objects + [o], s.total + o.price, sel, s.nextId + 1))
  {
    var objs := s.objects + [o];
    assert objs[..|s.objects|] == s.objects;
    if Valid(s) {
      SumConcat(s.objects, [o]);
      SumSingle(o);
      if sel == s.selected && sel.Some? {
        var k := Find(s.objects, sel.value).value;
        assert objs[k].id == sel.value;
      } else if sel.Some? {
        assert objs[|s.objects|].id == sel.value;
      }
    }
  }

  /**
   * `placeObject`: the loaded model stands on the ground at the clicked x/z, carries the
   * product's data, is unlocked and colliding, joins the budget and becomes the selection.
   */
  function Place(s: Scene, file: string, name: Option<string>, ref: string, price: real,
                 at: Point, box: Box): (r: Scene)
    ensures |r.objects| == |s.objects| + 1 && r.objects[..|s.objects|] == s.objects
    ensures var o := r.objects[|s.objects|];
      o.kind == Model(file) && o.position == Point(at.x, 0.0, at.z) && o.price == price
      && !o.locked && o.collides && r.selected == Some(o.id)
      && (Valid(s) ==> Find(s.objects, o.id).None?)
    ensures Valid(s) ==> Valid(r) && r.total == s.total + price
  {
    Add(s, Model(file), name, ref, price, Point(at.x, 0.0, at.z), box, true)
  }

  function Deselect(s: Scene): (r: Scene)
    ensures r.selected.None? && r.objects == s.objects && r.total == s.total
    ensures Valid(s) ==> Valid(r)
  {
    s.(selected := None)
  }

  /** `selectObject` for an object found in the scene; anything else leaves the scene alone. */
  function Select(s: Scene, id: nat): (r: Scene)
    ensures r.objects == s.objects && r.total == s.total
    ensures r.selected == (if Find(s.objects, id).Some? then Some(id) else s.selected)
    ensures Valid(s) ==> Valid(r)
  {
    if Find(s.objects, id).Some? then s.(selected := Some(id)) else s
  }

  /**
   * `deleteSelected`: with no selection, or a locked one, nothing happens; otherwise the
   * selected object leaves the scene, its price leaves the budget, and nothing is selected.
   */
  function DeleteSelected(s: Scene): (r: Scene)
    ensures s.selected.None? ==> r == s
    ensures Valid(s) ==> Valid(r)
    ensures Valid(s) && s.selected.Some? ==>
      var o := s.objects[Find(s.objects, s.selected.value).value];
      (o.locked ==> r == s)
      && (!o.locked ==>
        r.objects == Without(s.objects, o.id) && r.total == s.total - o.price
        && r.selected.None? && r.nextId == s.nextId)
  {
    match SelectedIndex(s)
    case None => s
    case Some(k) =>
      var o := s.objects[k];
      if o.locked then s
      else
        CutKeepsValid(s, k);
        Scene(s.objects[..k] + s.objects[k + 1..], s.total - o.price, None, s.nextId)
  }

  lemma CutKeepsValid(s: Scene, k: nat)
    requires k < |s.objects|
    ensures Valid(s) ==>
      var rest := s.objects[..k] + s.objects[k + 1..];
      rest == Without(s.objects, s.objects[k].id)
      && Valid(Scene(rest, s.total - s.objects[k].price, None, s.nextId))
  {
    if Valid(s) {
      CutIsWithout(s.objects, k);
      CutKeepsIds(s.objects, k, s.nextId);
      SumRemove(s.objects, k);
    }
  }

  /**
   * Deleting an object straight after placing it restores the scene: same objects, same
   * budget, nothing selected.
   */
  lemma PlaceThenDelete(s: Scene, file: string, name: Option<string>, ref: string, price: real,
                        at: Point, box: Box)
    requires Valid(s)
    ensures var r := DeleteSelected(Place(s, file, name, ref, price, at, box));
      r.objects == s.objects && r.total == s.total && r.selected.None?
  {
    var p := Place(s, file, name, ref, price, at, box);
    var n := |s.objects|;
    assert Find(p.objects, p.objects[n].id) == Some(n) by {
      assert forall i :: 0 <= i < n ==> p.objects[i].id != p.objects[n].id;
    }
    CutIsWithout(p.objects, n);
    assert p.objects[..n] + p.objects[n + 1..] == s.objects;
  }

  /** `resetScene` on the store: no objects, a zero budget, no selection. */
  function Reset(s: Scene): (r: Scene)
    ensures |r.objects| == 0 && r.total == 0.0 && r.selected.None?
    ensures Valid(r) && r.total == Sum(r.objects)
    ensures r.nextId == s.nextId
  {
    Scene([], 0.0, None, s.nextId)
  }

  /** Replaces the object at `k` by `o`, moving the budget by the price difference. */
  function Replace(s: Scene, k: nat, o: SceneObject): (r: Scene)
    requires k < |s.objects| && o.id == s.objects[k].id
    ensures r.objects == s.objects[k := o] && r.selected == s.selected
    ensures Valid(s) ==> Valid(r) && r.total == s.total - s.objects[k].price + o.price
  {
    ReplaceKeepsValid(s, k, o);
    Scene(s.objects[k := o], s.total - s.objects[k].price + o.price, s.selected, s.nextId)
  }

  lemma ReplaceKeepsValid(s: Scene, k: nat, o: SceneObject)
    requires k < |s.objects| && o.id == s.objects[k].id
    ensures Valid(s) ==> Valid(Scene(s.objects[k := o], s.total - s.objects[k].price + o.price, s.selected, s.nextId))
  {
    var objs := s.objects[k := o];
    if Valid(s) {
      SumUpdate(s.objects, k, o);
      assert forall i :: 0 <= i < |objs| ==> objs[i].id == s.objects[i].id;
      FindSameIds(s.objects, objs, if s.selected.Some? then s.selected.value else 0);
    }
  }

  /** `toggleLock`: the selected object's lock flips; nothing else changes. */
  function ToggleLock(s: Scene): (r: Scene)
    ensures Valid(s) ==> Valid(r) && r.total == s.total
    ensures r.selected == s.selected
    ensures |r.objects| == |s.objects|
    ensures forall i :: 0 <= i < |s.objects| ==>
      if SelectedIndex(s) == Some(i) then r.objects[i] == s.objects[i].(locked := !s.objects[i].locked)
      else r.objects[i] == s.objects[i]
  {
    match SelectedIndex(s)
    case None => s
    case Some(k) => Replace(s, k, s.objects[k].(locked := !s.objects[k].locked))
  }

  /** `toggleObjectCollision`: the selected object's collision flag flips; nothing else changes. */
  function ToggleCollision(s: Scene): (r: Scene)
    ensures Valid(s) ==> Valid(r) && r.total == s.total && r.selected == s.selected
    ensures |r.objects| == |s.objects|
    ensures forall i :: 0 <= i < |s.objects| ==>
      if SelectedIndex(s) == Some(i) then r.objects[i] == s.objects[i].(collides := !s.objects[i].collides)
      else r.objects[i] == s.objects[i]
  {
    match SelectedIndex(s)
    case None => s
    case Some(k) => Replace(s, k, s.objects[k].(collides := !s.objects[k].collides))
  }

  /** Toggling a lock twice gives back the scene it started from. */
  lemma ToggleLockTwice(s: Scene)
    ensures ToggleLock(ToggleLock(s)) == s
  {
    var t := ToggleLock(s);
    assert SelectedIndex(t) == SelectedIndex(s) by {
      assert forall i :: 0 <= i < |s.objects| ==> t.objects[i].id == s.objects[i].id;
      if s.selected.Some? {
        FindSameIds(s.objects, t.objects, s.selected.value);
      }
    }
  }

  /** Toggling collision twice gives back the scene it started from. */
  lemma ToggleCollisionTwice(s: Scene)
    ensures ToggleCollision(ToggleCollision(s)) == s
  {
    var t := ToggleCollision(s);
    assert SelectedIndex(t) == SelectedIndex(s) by {
      assert forall i :: 0 <= i < |s.objects| ==> t.objects[i].id == s.objects[i].id;
      if s.selected.Some? {
        FindSameIds(s.objects, t.objects, s.selected.value);
      }
    }
  }

  /** Two scenes with the same identities in the same places find the selection in the same place. */
  lemma SameIdsSameIndex(a: Scene, b: Scene)
    requires a.selected == b.selected && |a.objects| == |b.objects|
    requires forall i :: 0 <= i < |a.objects| ==> a.objects[i].id == b.objects[i].id
    ensures SelectedIndex(a) == SelectedIndex(b)
  {
    if a.selected.Some? {
      FindSameIds(a.objects, b.objects, a.selected.value);
    }
  }

  lemma {:induction false} FindSameIds(a: seq<SceneObject>, b: seq<SceneObject>, id: nat)
    requires |a| == |b| && forall i :: 0 <= i < |a| ==> a[i].id == b[i].id
    ensures Find(a, id) == Find(b, id)
    decreases |a|
  {
    if |a| > 0 {
      FindSameIds(a[1..], b[1..], id);
    }
  }

  /** A floor after texturing: priced per square metre of its area, named after the image. */
  function Retextured(o: SceneObject, priceM2: real, filename: string): (r: SceneObject)
    requires o.kind.Floor?
    ensures r.id == o.id && r.price == AreaPrice(o.kind.area, priceM2)
    ensures r.locked == o.locked && r.collides == o.collides
  {
    o.(price := AreaPrice(o.kind.area, priceM2), name := Some("Suelo: " + filename))
  }

  /**
   * `applyTextureToSelectedFloor`: a selected floor is re-priced at `priceM2` per square metre
   * of its recorded area (rounded to whole euros) and renamed after the image; the budget moves
   * by the difference between the new and the old price. Anything else is left alone.
   */
  function RepriceFloor(s: Scene, priceM2: real, filename: string): (r: Scene)
    ensures Valid(s) ==> Valid(r) && r.selected == s.selected
    ensures match SelectedIndex(s)
      case None => r == s
      case Some(k) =>
        var o := s.objects[k];
        if !o.kind.Floor? then r == s
        else
          r.objects == s.objects[k := Retextured(o, priceM2, filename)]
          && r.objects[k].price == AreaPrice(o.kind.area, priceM2)
          && (Valid(s) ==> r.total == s.total + (r.objects[k].price - o.price))
  {
    match SelectedIndex(s)
    case None => s
    case Some(k) =>
      var o := s.objects[k];
      if o.kind.Floor? then
        var n := Retextured(o, priceM2, filename);
        var r := Replace(s, k, n);
        assert r.objects[k] == n;
        r
      else s
  }

  /**
   * A gizmo drag of the selection: an unlocked selected object takes the new position and box.
   * The gizmo is detached from locked objects, so they do not move.
   */
  function MoveSelected(s: Scene, position: Point, box: Box): (r: Scene)
    ensures Valid(s) ==> Valid(r) && r.total == s.total && r.selected == s.selected
    ensures |r.objects| == |s.objects|
    ensures forall i :: 0 <= i < |s.objects| ==>
      if SelectedIndex(s) == Some(i) && !s.objects[i].locked then
        r.objects[i] == s.objects[i].(position := position, box := box)
      else r.objects[i] == s.objects[i]
  {
    match SelectedIndex(s)
    case None => s
    case Some(k) =>
      if s.objects[k].locked then s else Replace(s, k, s.objects[k].(position := position, box := box))
  }

  /** How far every bounding box is shrunk before the overlap test. */
  const CollisionMargin: real := 0.1

  /** Two objects' shrunk bounding boxes overlap. */
  predicate Clash(a: SceneObject, b: SceneObject) {
    Intersects(Shrink(a.box, CollisionMargin), Shrink(b.box, CollisionMargin))
  }

  /** `o` is another object than `sel`, has collision on, and clashes with `sel`. */
  predicate Hits(sel: SceneObject, o: SceneObject) {
    o.id != sel.id && o.collides && Clash(sel, o)
  }

  /**
   * The selection collides: it has collision on, and some other object with collision on has a
   * shrunk bounding box overlapping the selection's.
   */
  predicate Colliding(s: Scene) {
    match SelectedIndex(s)
    case None => false
    case Some(k) =>
      s.objects[k].collides && exists j | 0 <= j < |s.objects| :: Hits(s.objects[k], s.objects[j])
  }

  /**
   * `checkCollisions`: walks the scene and stops at the first other colliding object whose
   * shrunk box overlaps the selection's.
   */
  method CheckCollisions(s: Scene) returns (hit: bool)
    ensures hit == Colliding(s)
  {
    var k := SelectedIndex(s);
    if k.None? || !s.objects[k.value].collides {
      return false;
    }
    var sel := s.objects[k.value];
    hit := false;
    var i := 0;
    while i < |s.objects| && !hit
      invariant 0 <= i <= |s.objects|
      invariant hit <==> exists j | 0 <= j < i :: Hits(sel, s.objects[j])
    {
      hit := Hits(sel, s.objects[i]);
      i := i + 1;
    }
  }

  /**
   * Collision is mutual: when two distinct objects both have collision on and their shrunk
   * boxes overlap, selecting either of them reports a collision.
   */
  lemma CollisionMutual(s: Scene, i: nat, j: nat)
    requires Valid(s) && i < |s.objects| && j < |s.objects| && i != j
    requires s.objects[i].collides && s.objects[j].collides && Clash(s.objects[i], s.objects[j])
    ensures Colliding(s.(selected := Some(s.objects[i].id)))
    ensures Colliding(s.(selected := Some(s.objects[j].id)))
  {
    var a := s.(selected := Some(s.objects[i].id));
    var b := s.(selected := Some(s.objects[j].id));
    assert SelectedIndex(a) == Some(i) by {
      FindUnique(s.objects, i);
    }
    assert SelectedIndex(b) == Some(j) by {
      FindUnique(s.objects, j);
    }
    IntersectsSymmetric(Shrink(s.objects[i].box, CollisionMargin), Shrink(s.objects[j].box, CollisionMargin));
  }

  /** A one-metre crate standing at `x` on the ground, collision on, selected by `id`. */
  function Crate(id: nat, x: real): SceneObject {
    SceneObject(id, Model("crate.glb"), None, "C-1", 0.0, false, true, Point(x, 0.0, 0.0),
                Box(Point(x, 0.0, 0.0), Point(x + 1.0, 1.0, 1.0)))
  }

  lemma NoHitNoCollision(s: Scene, k: nat)
    requires SelectedIndex(s) == Some(k)
    requires forall j | 0 <= j < |s.objects| :: !Hits(s.objects[k], s.objects[j])
    ensures !Colliding(s)
  {
  }

  /** Two crates placed on the same spot collide. */
  lemma CratesOnOneSpotCollide()
    ensures Colliding(Scene([Crate(0, 0.0), Crate(1, 0.0)], 0.0, Some(1), 2))
  {
    var a, b := Crate(0, 0.0), Crate(1, 0.0);
    var s := Scene([a, b], 0.0, Some(1), 2);
    assert [a, b][1..] == [b];
    assert Find([a, b], 1) == Some(1);
    assert SelectedIndex(s) == Some(1);
    assert s.objects[1] == b && s.objects[0] == a;
    assert Hits(s.objects[1], s.objects[0]);
  }

  /** Dragging the selected one of two crates on one spot 5 m along x clears the collision. */
  lemma DraggedCrateClears()
    ensures var s := Scene([Crate(0, 0.0), Crate(1, 0.0)], 0.0, Some(1), 2);
      !Colliding(MoveSelected(s, Point(5.0, 0.0, 0.0), Crate(1, 5.0).box))
  {
    var a, b, c := Crate(0, 0.0), Crate(1, 0.0), Crate(1, 5.0);
    var s := Scene([a, b], 0.0, Some(1), 2);
    assert [a, b][1..] == [b];
    assert Find([a, b], 1) == Some(1);
    var m := MoveSelected(s, Point(5.0, 0.0, 0.0), c.box);
    assert m.objects == [a, c];
    assert [a, c][1..] == [c];
    assert Find([a, c], 1) == Some(1);
    assert !Hits(c, a) && !Hits(c, c);
    NoHitNoCollision(m, 1);
  }

  lemma {:induction false} FindUnique(objs: seq<SceneObject>, k: nat)
    requires UniqueIds(objs) && k < |objs|
    ensures Find(objs, objs[k].id) == Some(k)
    decreases k
  {
    if k > 0 {
      assert UniqueIds(objs[1..]);
      FindUnique(objs[1..], k - 1);
    }
  }
}
