/**
 * The editor session: the scene store plus the tool state (measuring, floor drawing, the model
 * waiting to be placed), the click dispatcher `onPointerDown`, and every user command. A click
 * or command is one atomic step; the model and texture loaders' callbacks run inside the step.
 */
module Editor {
  import opened Results
  import opened JsNumber
  import opened Geometry
  import opened Catalogue
  import opened SceneStore

  /** What `prepareToPlace` or `prepareImportedModel` leaves for the next ground click. */
  datatype Pending = Pending(file: Option<string>, name: Option<string>, ref: string, price: real)

  /**
   * `isMeasuring`, `isDrawingFloor`, `measurePoints`, `floorPoints`, and `productToPlace`
   * together with `window.currentProductData` as `pending`.
   */
  datatype Tools = Tools(
    measuring: bool,
    drawingFloor: bool,
    measurePoints: seq<Point>,
    floorPoints: seq<Point>,
    pending: Option<Pending>)

  /** The transform gizmo's two modes; three.js starts it in `translate`. */
  datatype GizmoMode = Translate | Rotate

  /**
   * The whole editor state. `gizmo` is the object `transformControl` is attached to and `mode`
   * its mode; `colliding` is `isColliding`, last set by a collision check.
   */
  datatype Session = Session(scene: Scene, tools: Tools, gizmo: Option<nat>, mode: GizmoMode, colliding: bool)

  const Start: Session := Session(SceneStore.Empty, Tools(false, false, [], [], None), None, Translate, false)

  /**
   * Where the gizmo sits between steps: on the selection unless it is locked, as `selectObject`
   * and `updateUI` leave it.
   */
  function Attached(sc: Scene): (r: Option<nat>)
    ensures r.Some? ==> sc.selected == r
  {
    match SelectedIndex(sc)
    case None => None
    case Some(k) => if sc.objects[k].locked then None else Some(sc.objects[k].id)
  }

  /**
   * The session invariant: the store's invariant, at most one tool mode on, at most two
   * measuring points, no leftover points of a tool that is off, and the gizmo on an unlocked
   * selection and nowhere else.
   */
  ghost predicate Valid(s: Session) {
    && SceneStore.Valid(s.scene)
    && !(s.tools.measuring && s.tools.drawingFloor)
    && |s.tools.measurePoints| <= 2
    && (!s.tools.measuring ==> s.tools.measurePoints == [])
    && (!s.tools.drawingFloor ==> s.tools.floorPoints == [])
    && s.gizmo == Attached(s.scene)
  }

  lemma StartValid()
    ensures Valid(Start)
  {
  }

  /** A ground click places a model only when `productToPlace` is truthy: a non-empty file. */
  predicate Armed(t: Tools) {
    t.pending.Some? && t.pending.value.file.Some? && t.pending.value.file.value != ""
  }

  /**
   * `transformControl.attach(o)` (`Some`) or `detach()` (`None`). The gizmo's `object` setter
   * fires a 'change' event only when the attached object changes, and the listener on it runs
   * `checkCollisions` when something is selected.
   */
  function SetGizmo(s: Session, target: Option<nat>): (r: Session)
    ensures r.scene == s.scene && r.tools == s.tools && r.gizmo == target
  {
    if target != s.gizmo && s.scene.selected.Some? then s.(gizmo := target, colliding := Colliding(s.scene))
    else s.(gizmo := target)
  }

  /**
   * `deselectObject`: the selection is cleared before the gizmo detaches, so the listener finds
   * nothing selected and the collision flag stays as it was.
   */
  function DeselectObject(s: Session): (r: Session)
    ensures r.scene == Deselect(s.scene) && r.tools == s.tools
    ensures r.gizmo.None? && r.colliding == s.colliding
    ensures Valid(s) ==> Valid(r)
  {
    SetGizmo(s.(scene := Deselect(s.scene)), None)
  }

  /** In a valid store, an object's identity leads back to its own position. */
  lemma FoundAt(sc: Scene, k: nat)
    requires k < |sc.objects|
    ensures SceneStore.Valid(sc) ==> Find(sc.objects, sc.objects[k].id) == Some(k)
  {
    if SceneStore.Valid(sc) {
      FindUnique(sc.objects, k);
    }
  }

  /**
   * `selectObject` on the object at position `k`: it becomes the selection, then the gizmo is
   * attached to it, or detached when it is locked. When that moves the gizmo, the collision
   * flag is recomputed for the new selection; otherwise it keeps its old value.
   */
  function SelectObject(s: Session, k: nat): (r: Session)
    requires k < |s.scene.objects|
    ensures var o := s.scene.objects[k];
      r.scene == s.scene.(selected := Some(o.id)) && r.tools == s.tools
      && r.gizmo == (if o.locked then None else Some(o.id))
    ensures r.colliding == (if r.gizmo != s.gizmo then Colliding(r.scene) else s.colliding)
    ensures SceneStore.Valid(s.scene) ==> r.gizmo == Attached(r.scene)
    ensures Valid(s) ==> Valid(r)
  {
    var o := s.scene.objects[k];
    FoundAt(s.scene, k);
    SetGizmo(s.(scene := s.scene.(selected := Some(o.id))), if o.locked then None else Some(o.id))
  }

  /**
   * Selecting an unlocked object other than the current selection, or a locked one while the
   * gizmo is attached elsewhere, recomputes the collision flag for it.
   */
  lemma SelectingRechecks(s: Session, k: nat)
    requires Valid(s) && k < |s.scene.objects|
    requires if s.scene.objects[k].locked then s.gizmo.Some? else s.scene.selected != Some(s.scene.objects[k].id)
    ensures var r := SelectObject(s, k);
      r.colliding == Colliding(r.scene)
  {
  }

  function Flag(b: bool): nat {
    if b then 1 else 0
  }

  /**
   * `toggleMeasureMode`: leaves floor drawing first, then flips measuring; turning it on drops
   * the selection, turning it off clears the measurement. The two toggles call each other, so
   * they only terminate when at most one mode is on.
   */
  function ToggleMeasure(s: Session): (r: Session)
    requires !(s.tools.measuring && s.tools.drawingFloor)
    decreases Flag(s.tools.drawingFloor), 1
    ensures r.tools.measuring == !s.tools.measuring && !r.tools.drawingFloor
    ensures r.tools.measuring ==> r.scene.selected.None?
    ensures !r.tools.measuring ==> r.tools.measurePoints == []
    ensures r.tools.measuring ==> r.tools.measurePoints == s.tools.measurePoints
    ensures r.tools.floorPoints == (if s.tools.drawingFloor then [] else s.tools.floorPoints)
    ensures r.scene.objects == s.scene.objects && r.scene.total == s.scene.total
    ensures r.tools.pending == s.tools.pending && r.colliding == s.colliding
    ensures !r.tools.measuring ==> r.scene.selected == (if s.tools.drawingFloor then None else s.scene.selected)
    ensures SceneStore.Valid(s.scene) ==> SceneStore.Valid(r.scene)
    ensures (r.scene == s.scene && r.gizmo == s.gizmo) || (r.scene == Deselect(s.scene) && r.gizmo.None?)
  {
    var s1 := if s.tools.drawingFloor then ToggleFloor(s) else s;
    if !s1.tools.measuring then
      var s2 := DeselectObject(s1);
      s2.(tools := s2.tools.(measuring := true))
    else
      s1.(tools := s1.tools.(measuring := false, measurePoints := []))
  }

  /**
   * `toggleFloorMode`: leaves measuring first, then flips floor drawing; turning it on drops
   * the selection, turning it off discards the draft outline.
   */
  function ToggleFloor(s: Session): (r: Session)
    requires !(s.tools.measuring && s.tools.drawingFloor)
    decreases Flag(s.tools.measuring), 0
    ensures r.tools.drawingFloor == !s.tools.drawingFloor && !r.tools.measuring
    ensures r.tools.drawingFloor ==> r.scene.selected.None?
    ensures !r.tools.drawingFloor ==> r.tools.floorPoints == []
    ensures r.tools.drawingFloor ==> r.tools.floorPoints == s.tools.floorPoints
    ensures r.tools.measurePoints == (if s.tools.measuring then [] else s.tools.measurePoints)
    ensures r.scene.objects == s.scene.objects && r.scene.total == s.scene.total
    ensures r.tools.pending == s.tools.pending && r.colliding == s.colliding
    ensures !r.tools.drawingFloor ==> r.scene.selected == (if s.tools.measuring then None else s.scene.selected)
    ensures SceneStore.Valid(s.scene) ==> SceneStore.Valid(r.scene)
    ensures (r.scene == s.scene && r.gizmo == s.gizmo) || (r.scene == Deselect(s.scene) && r.gizmo.None?)
  {
    var s1 := if s.tools.measuring then ToggleMeasure(s) else s;
    if !s1.tools.drawingFloor then
      var s2 := DeselectObject(s1);
      s2.(tools := s2.tools.(drawingFloor := true))
    else
      s1.(tools := s1.tools.(drawingFloor := false, floorPoints := []))
  }

  /** Pressing a tool button twice returns to the same modes with the tool's points cleared. */
  lemma ToggleMeasureTwice(s: Session)
    requires Valid(s)
    ensures var r := ToggleMeasure(ToggleMeasure(s));
      r.tools.measuring == s.tools.measuring && !r.tools.drawingFloor
      && r.tools.measurePoints == [] && r.scene.objects == s.scene.objects
  {
  }

  /** Leaves both tool modes and drops the selection, as a new placement or import does first. */
  function LeaveTools(s: Session): (r: Session)
    requires !(s.tools.measuring && s.tools.drawingFloor)
    ensures !r.tools.measuring && !r.tools.drawingFloor && r.scene.selected.None?
    ensures r.tools.measurePoints == (if s.tools.measuring then [] else s.tools.measurePoints)
    ensures r.tools.floorPoints == (if s.tools.drawingFloor then [] else s.tools.floorPoints)
    ensures r.scene.objects == s.scene.objects && r.scene.total == s.scene.total
    ensures r.tools.pending == s.tools.pending && r.colliding == s.colliding && r.gizmo.None?
    ensures Valid(s) ==> Valid(r)
  {
    var s1 := if s.tools.measuring then ToggleMeasure(s) else s;
    var s2 := if s1.tools.drawingFloor then ToggleFloor(s1) else s1;
    DeselectObject(s2)
  }

  /**
   * `prepareToPlace`: leaves the tools, drops the selection and arms the product for the next
   * ground click (armed only when the product names a file).
   */
  function PrepareToPlace(s: Session, p: Product): (r: Session)
    requires !(s.tools.measuring && s.tools.drawingFloor)
    ensures !r.tools.measuring && !r.tools.drawingFloor && r.scene.selected.None?
    ensures r.tools.pending == Some(Pending(p.file, p.name, p.ref, p.price))
    ensures Armed(r.tools) <==> p.file.Some? && p.file.value != ""
    ensures r.scene.objects == s.scene.objects && r.scene.total == s.scene.total
    ensures r.gizmo.None? && r.colliding == s.colliding
    ensures Valid(s) ==> Valid(r)
  {
    var s1 := LeaveTools(s);
    s1.(tools := s1.tools.(pending := Some(Pending(p.file, p.name, p.ref, p.price))))
  }

  /** A `prompt` answer read by `parseFloat`; a cancelled prompt (`null`) reads as NaN. */
  function ParseAnswer(answer: Option<string>): Option<real> {
    match answer
    case None => None
    case Some(t) => ParseFloat(t)
  }

  /**
   * `prepareImportedModel`: leaves the tools, then arms the uploaded model under the answered
   * reference (default "CUSTOM"), name (default the file name) and price (default 0).
   */
  function PrepareImport(s: Session, url: string, filename: string, refAnswer: Option<string>,
                         nameAnswer: Option<string>, priceAnswer: Option<string>): (r: Session)
    requires !(s.tools.measuring && s.tools.drawingFloor)
    ensures !r.tools.measuring && !r.tools.drawingFloor && r.scene.selected.None?
    ensures var p := r.tools.pending;
      p.Some? && p.value.file == Some(url) && p.value.name == Some(Or(nameAnswer, filename))
      && p.value.ref == Or(refAnswer, "CUSTOM") && p.value.price == NumberOrZero(ParseAnswer(priceAnswer))
    ensures url != "" ==> Armed(r.tools)
    ensures r.scene.objects == s.scene.objects && r.scene.total == s.scene.total
    ensures r.gizmo.None? && r.colliding == s.colliding
    ensures Valid(s) ==> Valid(r)
  {
    var s1 := LeaveTools(s);
    var p := Pending(Some(url), Some(Or(nameAnswer, filename)), Or(refAnswer, "CUSTOM"),
                     NumberOrZero(ParseAnswer(priceAnswer)));
    s1.(tools := s1.tools.(pending := Some(p)))
  }

  /** What the pointer ray hit among the scene's objects, walked up to a top-level object. */
  datatype Pick = Missed | Hit(owner: nat)

  /**
   * One pointer press. `onPanel`: the target is inside one of the UI panels; `onGizmo`: the
   * transform gizmo's axis is hovered; `ground`: the ray's hit on the ground plane; `surface`:
   * its first hit on the objects or the ground; `pick`: its first hit on the objects;
   * `loadedBox`: the bounds of the model the loader returns if this click places one.
   */
  datatype Click = Click(
    onPanel: bool,
    onGizmo: bool,
    ground: Option<Point>,
    surface: Option<Point>,
    pick: Pick,
    loadedBox: Box)

  /** Which branch of `onPointerDown` handles a press, in the order the handler tries them. */
  datatype Route = Ignore | FloorPoint | MeasurePoint | PlaceModel | SelectPick

  function RouteOf(t: Tools, c: Click): Route {
    if c.onPanel || c.onGizmo then Ignore
    else if t.drawingFloor then FloorPoint
    else if t.measuring then MeasurePoint
    else if Armed(t) then PlaceModel
    else SelectPick
  }

  /** The measurement after one more point: a third point starts a new measurement. */
  function AddMeasurePoint(mp: seq<Point>, p: Point): (r: seq<Point>)
    ensures |r| >= 1 && r[|r| - 1] == p
    ensures |r| <= 2 || |mp| > 2
    ensures |mp| < 2 ==> r == mp + [p]
    ensures |mp| == 2 ==> r == [p]
  {
    (if |mp| == 2 then [] else mp) + [p]
  }

  /**
   * `placeObject`: the armed model, loaded, stands at the clicked ground point and is selected;
   * attaching the gizmo to it fires the change event, so the collision flag then says whether
   * the new object collides. Nothing is armed afterwards.
   */
  function PlaceArmed(s: Session, at: Point, box: Box): (r: Session)
    requires Armed(s.tools)
    ensures r.tools == s.tools.(pending := None)
    ensures var p := s.tools.pending.value;
      r.scene == Place(s.scene, p.file.value, p.name, p.ref, p.price, at, box)
    ensures r.gizmo == r.scene.selected
    ensures Valid(s) ==> r.colliding == Colliding(r.scene)
    ensures Valid(s) ==> Valid(r)
  {
    var p := s.tools.pending.value;
    var scene := Place(s.scene, p.file.value, p.name, p.ref, p.price, at, box);
    SelectObject(s.(scene := scene, tools := s.tools.(pending := None)), |s.scene.objects|)
  }

  /**
   * Placing a crate on the spot of another one leaves the collision flag on, though it was off
   * before the click.
   */
  lemma PlacingOnACrateCollides()
    ensures var s := Session(Scene([Crate(0, 0.0)], 0.0, None, 1),
                             Tools(false, false, [], [], Some(Pending(Some("crate.glb"), None, "C-1", 0.0))),
                             None, Translate, false);
      var r := Dispatch(s, Click(false, false, Some(Point(0.0, 0.0, 0.0)), None, Missed, Crate(1, 0.0).box));
      !s.colliding && r.colliding
  {
    var s := Session(Scene([Crate(0, 0.0)], 0.0, None, 1),
                     Tools(false, false, [], [], Some(Pending(Some("crate.glb"), None, "C-1", 0.0))),
                     None, Translate, false);
    assert Sum([Crate(0, 0.0)]) == 0.0 by { SumSingle(Crate(0, 0.0)); }
    assert Valid(s);
    var c := Click(false, false, Some(Point(0.0, 0.0, 0.0)), None, Missed, Crate(1, 0.0).box);
    assert RouteOf(s.tools, c) == PlaceModel;
    var r := Dispatch(s, c);
    assert r.colliding == Colliding(r.scene);
    assert r.scene == Scene([Crate(0, 0.0), Crate(1, 0.0)], 0.0, Some(1), 2);
    CratesOnOneSpotCollide();
  }

  /**
   * `onPointerDown`: presses on the panels or the gizmo do nothing; otherwise floor drawing
   * takes a ground point, else measuring takes a surface point, else an armed model is placed
   * on the ground, else the press selects the object hit or, on a miss, deselects.
   */
  function Dispatch(s: Session, c: Click): (r: Session)
    ensures Valid(s) ==> Valid(r)
    ensures RouteOf(s.tools, c) == Ignore ==> r == s
    ensures RouteOf(s.tools, c) == FloorPoint ==>
      r == s.(tools := s.tools.(floorPoints :=
        s.tools.floorPoints + (if c.ground.Some? then [c.ground.value] else [])))
    ensures RouteOf(s.tools, c) == MeasurePoint ==>
      r == s.(tools := s.tools.(measurePoints :=
        if c.surface.Some? then AddMeasurePoint(s.tools.measurePoints, c.surface.value) else s.tools.measurePoints))
    ensures RouteOf(s.tools, c) == PlaceModel ==>
      if c.ground.Some? then
        var p := s.tools.pending.value;
        r.scene == Place(s.scene, p.file.value, p.name, p.ref, p.price, c.ground.value, c.loadedBox)
        && r.tools == s.tools.(pending := None) && r.gizmo == r.scene.selected
        && (Valid(s) ==> r.colliding == Colliding(r.scene))
      else r == s
    ensures RouteOf(s.tools, c) == SelectPick ==>
      r.tools == s.tools && r.scene.objects == s.scene.objects && r.scene.total == s.scene.total
      && r.scene.selected == (match c.pick
        case Missed => None
        case Hit(id) => if Find(s.scene.objects, id).Some? then Some(id) else s.scene.selected)
    ensures RouteOf(s.tools, c) == SelectPick && c.pick.Missed? ==>
      r == s.(scene := Deselect(s.scene), gizmo := None)
    ensures RouteOf(s.tools, c) == SelectPick && c.pick.Hit? ==>
      match Find(s.scene.objects, c.pick.owner)
      case None => r == s
      case Some(k) => r == SelectObject(s, k)
  {
    match RouteOf(s.tools, c)
    case Ignore => s
    case FloorPoint =>
      if c.ground.Some? then s.(tools := s.tools.(floorPoints := s.tools.floorPoints + [c.ground.value])) else s
    case MeasurePoint =>
      if c.surface.Some? then
        s.(tools := s.tools.(measurePoints := AddMeasurePoint(s.tools.measurePoints, c.surface.value)))
      else s
    case PlaceModel =>
      if c.ground.Some? then PlaceArmed(s, c.ground.value, c.loadedBox) else s
    case SelectPick =>
      match c.pick
      case Missed => DeselectObject(s)
      case Hit(id) =>
        match Find(s.scene.objects, id)
        case None => s
        case Some(k) => SelectObject(s, k)
  }

  /** A third measuring click discards the finished measurement and starts a new one. */
  lemma ThirdPointRestarts(s: Session, c: Click)
    requires Valid(s) && s.tools.measuring && |s.tools.measurePoints| == 2
    requires !c.onPanel && !c.onGizmo && c.surface.Some?
    ensures Dispatch(s, c).tools.measurePoints == [c.surface.value]
  {
  }

  /**
   * `finishFloor`: with fewer than three points nothing happens; otherwise the outline becomes
   * a rubber floor priced by its shoelace area, added unselected, and the draft is cleared.
   */
  function FinishFloor(s: Session, box: Box): (r: Session)
    ensures |s.tools.floorPoints| < 3 ==> r == s
    ensures |s.tools.floorPoints| >= 3 ==>
      var pts := s.tools.floorPoints;
      var n := |s.scene.objects|;
      |r.scene.objects| == n + 1 && r.scene.objects[..n] == s.scene.objects
      && r.scene.objects[n].kind == Floor(Fixed2(Area(pts)), pts)
      && r.scene.objects[n].price == FloorPrice(Area(pts))
      && r.scene.objects[n].ref == "S-001" && r.scene.objects[n].name == Some("Suelo Caucho")
      && r.scene.selected == s.scene.selected
      && r.tools == s.tools.(floorPoints := [])
      && (SceneStore.Valid(s.scene) ==> r.scene.total == s.scene.total + FloorPrice(Area(pts)))
    ensures r.gizmo == s.gizmo && r.colliding == s.colliding
    ensures Valid(s) ==> Valid(r)
  {
    var pts := s.tools.floorPoints;
    if |pts| < 3 then s
    else
      var a := Area(pts);
      var scene := Add(s.scene, Floor(Fixed2(a), pts), Some("Suelo Caucho"), "S-001", FloorPrice(a),
                       Point(0.0, 0.01, 0.0), box, false);
      PrefixKeepsAttached(s.scene, scene);
      s.(scene := scene, tools := s.tools.(floorPoints := []))
  }

  /** The close-floor button: `finishFloor` and then `toggleFloorMode`. */
  function CloseFloor(s: Session, box: Box): (r: Session)
    requires !(s.tools.measuring && s.tools.drawingFloor)
    ensures r.tools.drawingFloor == !s.tools.drawingFloor
    ensures Valid(s) ==> Valid(r)
  {
    ToggleFloor(FinishFloor(s, box))
  }

  /**
   * Closing a drawn outline of at least three points leaves floor mode with exactly one new
   * object, a floor whose price is its shoelace area at 40 per square metre, and a budget
   * raised by that price.
   */
  lemma CloseFloorAddsPricedFloor(s: Session, box: Box)
    requires Valid(s) && s.tools.drawingFloor && |s.tools.floorPoints| >= 3
    ensures var r := CloseFloor(s, box);
      var n := |s.scene.objects|;
      var price := FloorPrice(Area(s.tools.floorPoints));
      !r.tools.drawingFloor && r.tools.floorPoints == []
      && |r.scene.objects| == n + 1 && r.scene.objects[..n] == s.scene.objects
      && r.scene.objects[n].price == price && r.scene.total == s.scene.total + price
  {
  }

  /**
   * `prepareCustomFloor` once the texture has loaded: a floor `width` metres wide and
   * `width * aspect` deep, priced per square metre of that area, added and selected.
   */
  function CustomFloor(scene: Scene, filename: string, width: real, priceM2: real, aspect: real,
                       box: Box): (r: Scene)
    ensures var area := width * (width * aspect);
      var n := |scene.objects|;
      |r.objects| == n + 1 && r.objects[..n] == scene.objects
      && r.objects[n].kind == Floor(Fixed2(area), [])
      && r.objects[n].price == AreaPrice(area, priceM2)
      && r.objects[n].name == Some("Suelo: " + filename) && r.objects[n].ref == "IMG"
      && r.selected == Some(r.objects[n].id)
      && !r.objects[n].locked && r.objects[n].collides
      && (SceneStore.Valid(scene) ==> Find(scene.objects, r.objects[n].id).None?)
    ensures SceneStore.Valid(scene) ==> SceneStore.Valid(r)
  {
    var area := width * (width * aspect);
    Add(scene, Floor(Fixed2(area), []), Some("Suelo: " + filename), "IMG", AreaPrice(area, priceM2),
        Point(0.0, 0.05, 0.0), box, true)
  }

  /**
   * An uploaded image: on a selected floor it re-prices that floor per square metre; otherwise
   * it becomes a new floor of the answered width, which `selectObject` selects, attaching the
   * gizmo and so recomputing the collision flag. A width that does not parse abandons it.
   */
  function UploadImage(s: Session, filename: string, widthAnswer: Option<string>,
                       priceAnswer: Option<string>, aspect: real, box: Box): (r: Session)
    ensures Valid(s) ==> Valid(r)
    ensures r.tools == s.tools
    ensures var k := SelectedIndex(s.scene);
      if (k.Some? && s.scene.objects[k.value].kind.Floor?) || ParseAnswer(widthAnswer).None? then
        r.gizmo == s.gizmo && r.colliding == s.colliding
      else
        r.gizmo == r.scene.selected && (Valid(s) ==> r.colliding == Colliding(r.scene))
    ensures var k := SelectedIndex(s.scene);
      var priceM2 := NumberOrZero(ParseAnswer(priceAnswer));
      r.scene ==
        if k.Some? && s.scene.objects[k.value].kind.Floor? then RepriceFloor(s.scene, priceM2, filename)
        else match ParseAnswer(widthAnswer)
          case None => s.scene
          case Some(w) => CustomFloor(s.scene, filename, w, priceM2, aspect, box)
  {
    var k := SelectedIndex(s.scene);
    var priceM2 := NumberOrZero(ParseAnswer(priceAnswer));
    if k.Some? && s.scene.objects[k.value].kind.Floor? then
      RepriceKeepsAttached(s.scene, priceM2, filename);
      s.(scene := RepriceFloor(s.scene, priceM2, filename))
    else
      match ParseAnswer(widthAnswer)
      case None => s
      case Some(w) =>
        SelectObject(s.(scene := CustomFloor(s.scene, filename, w, priceM2, aspect, box)), |s.scene.objects|)
  }

  /** `resetScene`: empties the store and clears both tools' points; the modes stay as they are. */
  function ResetSession(s: Session): (r: Session)
    ensures r.scene.objects == [] && r.scene.total == 0.0 && r.scene.selected.None?
    ensures r.tools == s.tools.(measurePoints := [], floorPoints := [])
    ensures r.gizmo.None? && r.colliding == s.colliding
    ensures Valid(s) ==> Valid(r)
  {
    s.(scene := Reset(s.scene), tools := s.tools.(measurePoints := [], floorPoints := []), gizmo := None)
  }

  /**
   * `deleteSelected`: when the selection leaves the scene, `deselectObject` detaches the gizmo;
   * the listener then finds nothing selected, so the collision flag stays.
   */
  function DeleteObject(s: Session): (r: Session)
    ensures r.scene == DeleteSelected(s.scene) && r.tools == s.tools && r.colliding == s.colliding
    ensures r.scene.selected.None? ==> r.gizmo.None?
    ensures Valid(s) ==> Valid(r)
  {
    var scene := DeleteSelected(s.scene);
    if scene.selected.None? then s.(scene := scene, gizmo := None) else s.(scene := scene)
  }

  /**
   * `toggleLock`: the selection's lock flips, then `updateUI` detaches the gizmo from a now
   * locked selection or attaches it to a now unlocked one. Either way the gizmo moves, so the
   * collision flag is recomputed.
   */
  function LockSelected(s: Session): (r: Session)
    ensures r.scene == ToggleLock(s.scene) && r.tools == s.tools
    ensures SelectedIndex(s.scene).None? ==> r == s
    ensures SelectedIndex(s.scene).Some? ==> r.gizmo == Attached(r.scene)
    ensures Valid(s) && s.scene.selected.Some? ==> r.colliding == Colliding(r.scene)
    ensures Valid(s) ==> Valid(r)
  {
    match SelectedIndex(s.scene)
    case None => s
    case Some(k) =>
      var scene := ToggleLock(s.scene);
      var o := scene.objects[k];
      SameIdsSameIndex(s.scene, scene);
      SetGizmo(s.(scene := scene), if o.locked then None else Some(o.id))
  }

  /**
   * `toggleObjectCollision`: the selection's collision flag flips, but `updateUI` leaves the
   * gizmo where it is, so no change event fires and `isColliding` keeps its old value.
   */
  function CollisionSelected(s: Session): (r: Session)
    ensures r.scene == ToggleCollision(s.scene) && r.tools == s.tools
    ensures r.gizmo == s.gizmo && r.colliding == s.colliding
    ensures Valid(s) ==> Valid(r)
  {
    var scene := ToggleCollision(s.scene);
    SameIdsSameIndex(s.scene, scene);
    s.(scene := scene)
  }

  /** Flags and positions aside, a scene that keeps its identities and locks keeps its gizmo. */
  lemma SameLocksSameAttached(a: Scene, b: Scene)
    requires a.selected == b.selected && |a.objects| == |b.objects|
    requires forall i :: 0 <= i < |a.objects| ==>
      a.objects[i].id == b.objects[i].id && a.objects[i].locked == b.objects[i].locked
    ensures Attached(a) == Attached(b)
  {
    SameIdsSameIndex(a, b);
  }

  /** Re-pricing a floor keeps identities and locks, so the gizmo stays where it belongs. */
  lemma RepriceKeepsAttached(sc: Scene, priceM2: real, filename: string)
    ensures Attached(RepriceFloor(sc, priceM2, filename)) == Attached(sc)
  {
    var r := RepriceFloor(sc, priceM2, filename);
    match SelectedIndex(sc)
    case None =>
    case Some(k) =>
      if sc.objects[k].kind.Floor? {
        SameLocksSameAttached(sc, r);
      }
  }

  /** Appending an unselected object keeps the gizmo where it belongs. */
  lemma PrefixKeepsAttached(a: Scene, b: Scene)
    requires b.selected == a.selected && |a.objects| <= |b.objects| && b.objects[..|a.objects|] == a.objects
    ensures SceneStore.Valid(a) && SceneStore.Valid(b) ==> Attached(b) == Attached(a)
  {
    if SceneStore.Valid(a) && SceneStore.Valid(b) && a.selected.Some? {
      var k := Find(a.objects, a.selected.value).value;
      assert b.objects[k] == a.objects[k];
      FindUnique(b.objects, k);
    }
  }

  /**
   * A gizmo drag of the selection, followed by `checkCollisions` (the gizmo's change event):
   * `colliding` then says whether the selection's shrunk box overlaps another colliding object.
   * A detached gizmo cannot be dragged, so then nothing happens and the flag keeps its value.
   */
  function Drag(s: Session, position: Point, box: Box): (r: Session)
    ensures s.gizmo.None? ==> r == s
    ensures s.gizmo.Some? ==> r.scene == MoveSelected(s.scene, position, box)
    ensures r.tools == s.tools && r.gizmo == s.gizmo && r.mode == s.mode
    ensures s.gizmo.Some? && s.scene.selected.Some? ==> r.colliding == Colliding(r.scene)
    ensures Valid(s) && s.gizmo.Some? ==> r.colliding == Colliding(r.scene)
    ensures Valid(s) ==> Valid(r)
  {
    if s.gizmo.None? then s
    else
      var scene := MoveSelected(s.scene, position, box);
      SameLocksSameAttached(s.scene, scene);
      s.(scene := scene, colliding := if scene.selected.Some? then Colliding(scene) else s.colliding)
  }

  /**
   * `setGizmoMode`, from the mode buttons or the 't' and 'r' keys. The gizmo fires its change
   * event only when the mode differs, and the listener re-checks collisions whenever something
   * is selected, locked or not.
   */
  function SetMode(s: Session, m: GizmoMode): (r: Session)
    ensures r.scene == s.scene && r.tools == s.tools && r.gizmo == s.gizmo && r.mode == m
    ensures m == s.mode || s.scene.selected.None? ==> r.colliding == s.colliding
    ensures m != s.mode && s.scene.selected.Some? ==> r.colliding == Colliding(s.scene)
    ensures Valid(s) ==> Valid(r)
  {
    if m != s.mode && s.scene.selected.Some? then s.(mode := m, colliding := Colliding(s.scene))
    else s.(mode := m)
  }

  /**
   * Switching the mode away and back, with something selected, restores the session except
   * that the collision flag is now up to date.
   */
  lemma ModeRoundTripRefreshes(s: Session, m: GizmoMode)
    requires m != s.mode && s.scene.selected.Some?
    ensures SetMode(SetMode(s, m), s.mode) == s.(colliding := Colliding(s.scene))
  {
  }

  /**
   * Toggling the selection's collision switch leaves `isColliding` stale; a mode switch
   * afterwards brings it up to date.
   */
  lemma ModeSwitchAfterCollisionToggle(s: Session, m: GizmoMode)
    requires Valid(s) && s.scene.selected.Some? && m != s.mode
    ensures var t := CollisionSelected(s);
      t.colliding == s.colliding && SetMode(t, m).colliding == Colliding(t.scene)
  {
  }

  /** Everything a user can do to the session. */
  datatype Command =
    | Press(click: Click)
    | MeasureButton
    | FloorButton
    | CloseFloorButton(floorBox: Box)
    | ClearMeasures
    | ChooseProduct(product: Product)
    | ImportModel(url: string, filename: string, refAnswer: Option<string>,
                  nameAnswer: Option<string>, priceAnswer: Option<string>)
    | ImportImage(filename: string, widthAnswer: Option<string>, priceAnswer: Option<string>,
                  aspect: real, imageBox: Box)
    | DeleteButton
    | ResetButton
    | LockButton
    | CollisionButton
    | GizmoDrag(position: Point, box: Box)
    | ModeButton(mode: GizmoMode)

  /** One command's effect on a session. */
  function Apply(s: Session, c: Command): (r: Session)
    requires Valid(s)
    ensures Valid(r)
  {
    match c
    case Press(click) => Dispatch(s, click)
    case MeasureButton => ToggleMeasure(s)
    case FloorButton => ToggleFloor(s)
    case CloseFloorButton(box) => CloseFloor(s, box)
    case ClearMeasures => s.(tools := s.tools.(measurePoints := []))
    case ChooseProduct(p) => PrepareToPlace(s, p)
    case ImportModel(url, filename, ra, na, pa) => PrepareImport(s, url, filename, ra, na, pa)
    case ImportImage(filename, wa, pa, aspect, box) => UploadImage(s, filename, wa, pa, aspect, box)
    case DeleteButton => DeleteObject(s)
    case ResetButton => ResetSession(s)
    case LockButton => LockSelected(s)
    case CollisionButton => CollisionSelected(s)
    case GizmoDrag(position, box) => Drag(s, position, box)
    case ModeButton(m) => SetMode(s, m)
  }

  /** A whole interaction, command by command. */
  function Run(s: Session, cs: seq<Command>): (r: Session)
    requires Valid(s)
    ensures Valid(r)
    decreases |cs|
  {
    if |cs| == 0 then s else Run(Apply(s, cs[0]), cs[1..])
  }

  /**
   * Whatever the user does from a fresh start, the budget shown equals the sum of the prices of
   * the objects in the scene, at most one tool is on, and a measurement never has more than two
   * points.
   */
  lemma BudgetMatchesScene(cs: seq<Command>)
    ensures var r := Run(Start, cs);
      r.scene.total == Sum(r.scene.objects)
      && !(r.tools.measuring && r.tools.drawingFloor)
      && |r.tools.measurePoints| <= 2
  {
    StartValid();
  }
}
