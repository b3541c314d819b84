# Playground configurator core, in Dafny

This project models the sequential logic inside `main.js` of a browser-based 3D playground
configurator. In the tool, a user loads a product catalogue from a spreadsheet and places play
equipment on a ground plane. They can also draw rubber floors, measure distances and lock
objects, and the running budget is kept up to date throughout. The model covers five pieces:

- **Catalogue loader** (`parseCSVtoTree`). CSV text becomes a tree: product line, then
  category, then products in row order. Fields are split only at commas outside quotes, then
  trimmed and unquoted, and absent values get their defaults.
- **Scene store.** This is `objectsInScene`, `totalPrice` and the selection. The operations are
  placing, finishing a floor, deleting, resetting, re-pricing a textured floor, lock and
  collision toggles, and gizmo drags. The store keeps one invariant: the budget equals the sum
  of the prices in the scene.
- **Floor pricing.** The shoelace area of the drawn outline, at 40 per square metre, rounded
  with `Math.round`.
- **Editor state machine.** The measure and floor tools, the model waiting for a ground click,
  the dispatch order of `onPointerDown`, the two-point measurement, and image and model
  uploads.
- **Collision flag** (`checkCollisions`). Bounding boxes shrunk by 0.1, compared with the
  three.js `Box3.intersectsBox` test. Also the dossier's one-item-per-reference selection.

Modules, one per file:

- `Results` (`results.dfy`): `Option` and `Result`.
- `JsText` (`jstext.dfy`): JavaScript `trim`, `split` on a character or on the quote-aware
  comma pattern, `toUpperCase`, and quote stripping.
- `JsNumber` (`jsnumber.dfy`): `parseFloat`, `Math.round` and `toFixed(2)` over exact reals.
- `Catalogue` (`catalogue.dfy`): the CSV loader.
- `Geometry` (`geometry.dfy`): points, boxes, the overlap test, and shoelace area and price.
- `SceneStore` (`scene_store.dfy`): the objects, the budget, the selection and their
  operations.
- `Editor` (`editor.dfy`): tool modes, click dispatch, uploads, and commands with their trace
  invariant.
- `Dossier` (`dossier.dfy`): the item pages' de-duplication by reference.
- `SharedUserData` (`shared_user_data.dfy`): the catalogue-object aliasing of `placeObject` as
  written (see Findings).

Conventions:

- JavaScript numbers are exact `real`s.
- `NaN` from `parseFloat` is `None`.
- A cancelled `prompt` is `None`.
- An object's identity is a natural number `id`. The store's invariant keeps ids distinct.
- Loaders, raycasts and prompts are parameters of the step they belong to:
  - the loaded model's bounding box;
  - the ray's hits;
  - the image's aspect ratio;
  - the answered text.

Behaviour of the code that the model keeps as written:

- **Collision test.** `checkCollisions` (`main.js:404`) tests axis-aligned bounding boxes,
  each shrunk by 0.1 on every face. Floors take part like any other object that collides.
- **Reaction to a collision.** A collision only sets the `isColliding` flag, which recolours
  the selection box; nothing is reverted. The flag is recomputed whenever the transform
  gizmo's 'change' event fires with something selected (`main.js:130`), even a locked one.
  The event fires after a drag, which needs the gizmo attached. It fires when `setGizmoMode`
  (`main.js:381`) switches the gizmo to the other mode. It also fires whenever `selectObject`
  or `updateUI` moves the gizmo to another object or detaches it from the selection. That
  happens on a placement, a selection, a new image floor, and locking or unlocking. Toggling
  the selection's collision switch leaves the gizmo in place, so `isColliding` keeps its old
  value until the next such event. `deselectObject` clears the selection before detaching, so it leaves the flag alone.
- **The gizmo's place.** Between steps the gizmo is on the selection when it is unlocked, and
  detached otherwise. `checkCollisions` calls `updateUI` when nothing collides; that repeats
  the attach or detach decision already made, so it moves nothing.
- **Placement height.** `placeObject` (`main.js:394`) puts the model at the clicked x and z,
  with its position's height set to 0.

## Model

| member | source | states |
|---|---|---|
| JsText.Trim | main.js:187 | the result is a contiguous piece of the input; everything cut off on either side is whitespace; the result neither starts nor ends with whitespace |
| JsText.TrimEmptyIff | main.js:187 | a line trims to "" exactly when it is all whitespace, which is when the loader drops it |
| JsText.TrimIdempotent | main.js:194 | trimming a trimmed text changes nothing |
| JsText.SplitExact | main.js:191 | the pieces of a split lie in the text in order; the text has a separator between consecutive pieces and none inside a piece; for the quote-aware pattern, a separator is a comma followed by an even number of `"` up to the end |
| JsText.SplitJoin | main.js:187 | splitting text joined with a character that no piece contains gives back the pieces |
| JsText.QuotedCommaKept | main.js:191 | the row `"a,b",c` splits into the two fields `"a,b"` and `c` |
| JsText.ToUpperNormalises | main.js:188 | upper-casing keeps the length; each ASCII letter a–z and each Latin-1 letter U+00E0–U+00FE other than U+00F7 becomes its capital, 32 code points lower; every other character is kept; the result has no ASCII lower-case letter, and upper-casing again changes nothing |
| JsText.ToUpperOfHeader | main.js:188 | header cells written in any case match the upper-case names the loader looks up |
| JsText.StripQuotesOfQuoted | main.js:195 | a field wrapped in one pair of quotes loses exactly that pair |
| JsText.StripQuotesUnquoted | main.js:195 | a field that neither starts nor ends with `"` is unchanged |
| JsNumber.ParseFloatOfNatText | main.js:201 | a whole number written in decimal and followed by text that cannot continue a number (a currency sign, a space, nothing) parses to that number |
| JsNumber.ParseFloatRejects | main.js:201 | text whose first visible character cannot start a number parses to NaN, so the price defaults to 0 |
| JsNumber.ParseFloatSkipsWhitespace | main.js:201 | leading whitespace does not change what `parseFloat` reads |
| JsNumber.Round | main.js:436 | `Math.round(x)` is the integer within half a unit of `x`, halves going up |
| JsNumber.RoundOfInt | main.js:436 | an integer rounds to itself |
| JsNumber.Fixed2 | main.js:436 | `toFixed(2)` is a whole number of hundredths within half a hundredth of the value; a tie goes away from zero (up for a non-negative value, down for a negative one); a non-negative value stays non-negative |
| JsNumber.Fixed2OfCents | main.js:436 | a value with at most two decimals is its own `toFixed(2)` |
| Catalogue.Rows | main.js:187 | no row is empty or has whitespace at either end, there are no more rows than lines, and there are none exactly when every line is blank |
| Catalogue.RowsAreNonBlankLines | main.js:187 | the rows are the non-blank lines, trimmed, in order: an increasing map sends each row to the line it trims, and every line holding a visible character is reached |
| Catalogue.LastIndexOf | main.js:193-197 | the position of the last header with a given name, or -1 exactly when no header has it |
| Catalogue.ItemReads | main.js:192-197 | the row object holds, under each header name, the field of the last column so named (`""` past the end of the row), and nothing under any other name |
| Catalogue.MakeEntryReadsColumns | main.js:192-204 | each product field is its column's text, with these defaults: "Sin Línea", "Varios", "#" for the three links, "" for the other texts, 0 for a price that does not parse |
| Catalogue.Insert | main.js:205-207 | filing a product appends it to its line and category branch, creates the branches on first use, and leaves every other branch as it was |
| Catalogue.BuildFilesRows | main.js:189-208 | after the loop, each branch holds exactly the products of the rows naming its line and category, in row order; a line or category exists exactly when a row names it |
| Catalogue.ParseCsvToTree | main.js:186-210 | the loader fails exactly when the text has no non-blank line; otherwise the first non-blank line gives the headers and the tree files every later row once, in order |
| Geometry.Shrink | main.js:404 | every point of a box shrunk by a non-negative margin lies in the original box |
| Geometry.IntersectsSymmetric | main.js:404 | the overlap test gives the same answer whichever box asks |
| Geometry.IntersectsIffCommonPoint | main.js:404 | for proper boxes the three.js test holds exactly when the boxes share a point |
| Geometry.ShrunkIntersectsIffDeepOverlap | main.js:404 | two boxes shrunk by d collide exactly when the originals overlap by at least 2d on every axis |
| Geometry.ShrunkIntersectsImplies | main.js:404 | shrinking can only remove collisions, never add one |
| Geometry.InvertedBoxIntersects | main.js:404 | an inverted box, which contains no point, still passes the test against a box that spans it |
| Geometry.Area | main.js:436 | a floor's area is never negative |
| Geometry.ShoelaceArea | main.js:436 | the floor loop, with `j = (i + 1) % n`, computes the polygon's area, half the absolute shoelace sum |
| Geometry.AreaRotate | main.js:436 | starting the outline at a different vertex does not change the area |
| Geometry.AreaReverse | main.js:436 | drawing the outline the other way round negates the signed sum and keeps the area |
| Geometry.AreaPrice | main.js:261 | an area priced per square metre and rounded is a whole number within half a euro of the exact product |
| Geometry.FloorPrice | main.js:436 | a drawn floor's price is a whole number, non-negative, within half a euro of area × 40 |
| Geometry.RectangleFloor | main.js:436 | the 4 × 3 rectangle has area 12 and costs 480 |
| SceneStore.Find | main.js:399 | the position of the object with a given identity; none exactly when no object has it |
| SceneStore.SelectedIndex | main.js:399 | in a valid store, a selection is always found in the scene |
| SceneStore.SumUpdate | main.js:262-263 | replacing one object moves the sum by the difference of the two prices |
| SceneStore.SumRemove | main.js:399 | removing one object lowers the sum by its price |
| SceneStore.CutIsWithout | main.js:399 | removing the object at the position found by `indexOf` removes exactly that object and keeps the others in order |
| SceneStore.Add | main.js:436 | a new object comes last, unlocked and colliding, with a fresh identity; the old objects are untouched; the store stays valid with the price added to the budget |
| SceneStore.Place | main.js:394 | a placed model stands at the clicked x/z at height 0, unlocked and colliding, selected, its price added to the budget, the earlier objects untouched |
| SceneStore.DeleteSelected | main.js:399 | no selection or a locked one changes nothing; otherwise exactly the selected object leaves, the others keep their order, its price leaves the budget, and nothing is selected |
| SceneStore.PlaceThenDelete | main.js:394-399 | deleting a model straight after placing it gives back the same objects and budget |
| SceneStore.Select | main.js:369 | only an object in the scene can become the selection |
| SceneStore.Reset | main.js:400 | the store is empty, the budget is 0 and nothing is selected |
| SceneStore.ToggleLock | main.js:402 | only the selected object's lock flips; every other object, the budget and the selection stay |
| SceneStore.ToggleCollision | main.js:403 | only the selected object's collision flag flips; everything else stays |
| SceneStore.ToggleLockTwice | main.js:402 | locking twice restores the scene |
| SceneStore.ToggleCollisionTwice | main.js:403 | toggling collision twice restores the scene |
| SceneStore.RepriceFloor | main.js:255-263 | a selected floor gets the rounded price of its area at the new rate and is renamed after the image; the budget moves by the new price minus the old; anything else changes nothing |
| SceneStore.MoveSelected | main.js:396 | only an unlocked selection moves; the budget and the other objects stay |
| SceneStore.CheckCollisions | main.js:404 | the loop reports a collision exactly when the selection has collision on and another colliding object's shrunk box overlaps the selection's |
| SceneStore.CollisionMutual | main.js:404 | when two colliding objects clash, selecting either one reports the collision |
| SceneStore.CratesOnOneSpotCollide | main.js:404 | two one-metre crates on the same spot collide |
| SceneStore.DraggedCrateClears | main.js:404 | dragging one of them 5 m away clears the collision |
| Editor.ToggleMeasure | main.js:407 | measuring flips and floor drawing ends; turning it on drops the selection; turning it off clears the points; objects, budget and the armed model stay |
| Editor.ToggleFloor | main.js:413 | floor drawing flips and measuring ends; turning it on drops the selection; turning it off discards the draft |
| Editor.ToggleMeasureTwice | main.js:407 | pressing the measure button twice returns to the same mode with no measurement and no floor mode |
| Editor.LeaveTools | main.js:393 | both tools end and the selection is dropped, objects and budget untouched |
| Editor.PrepareToPlace | main.js:393 | both tools end, nothing is selected, the product is waiting, and a click places it exactly when it names a file |
| Editor.PrepareImport | main.js:245-253 | the upload waits with reference "CUSTOM", the file name and price 0 as defaults for cancelled or empty answers |
| Editor.AddMeasurePoint | main.js:365 | the new point ends the measurement; it is appended to an unfinished one, and a point after a finished pair starts a new measurement holding only that point |
| Editor.PlaceArmed | main.js:394 | the waiting model is placed at the ground point and selected, the gizmo is attached to it, the collision flag then says whether the new object collides, and nothing waits afterwards |
| Editor.PlacingOnACrateCollides | main.js:394 | placing a crate on the spot of another turns the collision flag on |
| Editor.SelectObject | main.js:396-398 | the object becomes the selection and the gizmo is attached to it, or detached if it is locked; the collision flag is recomputed exactly when that moves the gizmo, and kept otherwise |
| Editor.SelectingRechecks | main.js:130 | selecting an unlocked object other than the selection, or a locked one while the gizmo is attached, leaves the flag saying whether the new selection collides |
| Editor.DeselectObject | main.js:397 | the selection is cleared and the gizmo detached, and the collision flag is kept |
| Editor.Dispatch | main.js:359-371 | presses on a panel or the gizmo change nothing; otherwise floor drawing wins, then measuring, then a waiting model, then selection. A floor or measuring click changes only that tool's points. A placement changes the scene, the waiting model, the gizmo and the flag as `placeObject` does. A miss deselects; a hit on an object in the scene selects it as `selectObject` does; any other hit changes nothing |
| Editor.ThirdPointRestarts | main.js:365 | a click on a finished two-point measurement leaves just the new point |
| Editor.FinishFloor | main.js:436 | under three points nothing changes; otherwise one unselected floor with the outline's area and price is appended, the budget rises by that price, and the draft empties |
| Editor.CloseFloor | main.js:344 | the close button always flips floor mode and keeps the session valid |
| Editor.CloseFloorAddsPricedFloor | main.js:344 | closing an outline of three or more points leaves floor mode with one new floor priced at area × 40, rounded, added to the budget |
| Editor.CustomFloor | main.js:269-279 | an image floor `w` wide and `w × aspect` deep gets the rounded price of that area at the answered rate, and is added and selected |
| Editor.UploadImage | main.js:236-239 | an image re-prices a selected floor, keeping the gizmo and the flag; otherwise it makes a new floor that is selected, with the gizmo on it and the flag recomputed, unless the width does not parse |
| Editor.ResetSession | main.js:400 | the scene empties, the budget is 0, both tools' points are cleared, the gizmo is detached, and the modes and the collision flag stay |
| Editor.DeleteObject | main.js:399 | the store deletes the selection as `deleteSelected` does; when nothing stays selected the gizmo is detached, and the collision flag is kept |
| Editor.LockSelected | main.js:398-402 | the selection's lock flips, the gizmo is detached from a locked selection and attached to an unlocked one, and the collision flag then says whether the selection collides |
| Editor.CollisionSelected | main.js:403 | the selection's collision switch flips, while the gizmo and `isColliding` stay as they were |
| Editor.Drag | main.js:130 | with the gizmo attached, the selection moves and the collision flag then says whether it collides; with the gizmo detached there is no drag and nothing changes |
| Editor.SetMode | main.js:380-381 | the gizmo takes the mode; switching to the other mode with something selected recomputes the collision flag, and otherwise the flag is kept |
| Editor.ModeRoundTripRefreshes | main.js:381 | switching the mode away and back restores the session, with the collision flag brought up to date |
| Editor.ModeSwitchAfterCollisionToggle | main.js:403 | toggling the collision switch keeps a stale flag, and a later mode switch brings it up to date |
| Editor.Apply | main.js:343-353 | every command keeps the session valid |
| Editor.Run | main.js:343-353 | any sequence of commands keeps the session valid |
| Editor.BudgetMatchesScene | main.js:394-436 | from a fresh start, whatever the user does, the budget equals the sum of the prices in the scene, at most one tool is on, and a measurement has at most two points |
| Dossier.DedupCharacterised | main.js:515-518 | the chosen items have distinct references, cover every reference in the scene, and each is the first object with its reference |
| Dossier.DedupPrefix | main.js:515-518 | items chosen for the first part of the scene stay chosen, in scene order |
| Dossier.DossierItems | main.js:515-518 | the loop with its `seen` set picks exactly the first object of every reference |
| SharedUserData.PlaceShared | main.js:394 | as written, placing resets the flags of the shared product object |
| SharedUserData.LockLeaksToTwin | main.js:394 | as written, locking one of two copies of a product locks the other, which then refuses deletion |
| SharedUserData.PlacingUnlocksTwin | main.js:394 | as written, placing a new copy unlocks a copy locked earlier |
| SharedUserData.CorrectedLockStaysPut | main.js:402 | with flags per object, locking the second copy leaves the first unlocked and deletable |

## Left out

- Rendering, cameras, lights, sky, labels, markers and the selection box's colour: these are
  three.js calls with no logic to check.
- What the gizmo's mode does to a drag. A drag takes any new position and box, which covers
  both a move and a rotation. The model does not tie the kind of drag to the mode.
- Hovering the pointer over the gizmo changes its `axis`. Switching the projection sets its
  `camera` (`main.js:612`). Both fire the change event and recompute the collision flag for
  an unchanged scene; the model has no hover or projection step.
- Screenshots (`main.js:456-459`, `main.js:535`) detach the gizmo and attach it again to the
  selection, even a locked one. They are not modelled, so the rule that the gizmo stays off a
  locked selection covers the modelled commands only.
- The augmented-reality session and the PDF dossier's layout, images, screenshots and
  discount and tax arithmetic: presentation and foreign library calls. Only the item
  de-duplication is modelled.
- Fetching the spreadsheet, `FileReader`, the GLTF and texture loaders, `prompt` and `alert`.
  Each becomes a parameter of one atomic step. A texture loaded after its floor was deleted
  still changes the budget in the code; that race is not modelled.
- Choosing an upload's kind from its file extension (lower-cased, then `.glb`/`.gltf` or
  `.jpg`/`.jpeg`/`.png`): the kind is chosen by the command, because lower-casing file names
  is not modelled.
- JSON save and load (`saveProject`, `loadProject`, `reconstructFloor`,
  `reconstructModel`): they serialise three.js objects, so no format is defined to reason
  about.
- Point entry by distance and angle (`updateFloorFromInput`, `addPointFromInput`): it needs
  trigonometry and vector normalisation.
- Floor colour presets, views, projection and window resizing: display state only.
- The raycast and the parent walk-up of a pick: a click carries its hits. A pick that walks
  up to something outside the scene is `Hit` with an id not in the store, and selects nothing.
- Editor.ToggleMeasure: requires that at most one tool is on, because with both on the two
  toggles in the code would call each other forever. Every reachable state satisfies the
  requirement.
- SceneStore.DeleteSelected: does not model `splice(-1, 1)`, which the code would do for a
  selection outside the scene. The store's invariant keeps a selection in the scene, so that
  case is unreachable.
- JsNumber.ParseFloat: reads decimal literals only. It does not read "Infinity", and it does
  not round to the nearest double.
- JsText.UpperChar: upper-cases only the ASCII letters and the Latin-1 letters U+00E0–U+00FE
  (except U+00F7) that have a one-to-one Latin-1 capital. It keeps ß (U+00DF), which
  `toUpperCase` turns into "SS", ÿ (U+00FF), which becomes U+0178, µ (U+00B5), which becomes
  U+039C, and every character beyond Latin-1. So ToUpper keeps the length where
  `toUpperCase` can lengthen a text.
- Catalogue.ParseCsvToTree: the tree is a Dafny map. JavaScript object key order and
  inherited names such as `constructor` as line or category names are not modelled.
- SceneStore.RepriceFloor: uses the floor's stored `toFixed(2)` area as a number. The code
  writes that area as text and reads it back with `parseFloat`, which gives the same value.
- SceneStore.SceneObject: stores no rotation, model file contents, description or dimension
  text, because none of them affects the budget, the flags or collisions.

## Findings

| source | as written | input that shows it | evidently intended | confidence | as-written member | corrected member |
|---|---|---|---|---|---|---|
| main.js:394 | `placeObject` makes the model's `userData` the catalogue product object itself, then writes `locked` and `collides` into it, so all copies of one product share those flags | place the same catalogue product twice and lock the second copy: the first copy reports locked and `deleteSelected` refuses it; placing a third copy unlocks both | each placed object has its own lock and collision flags | not executed | SharedUserData.LockLeaksToTwin | SceneStore.ToggleLock, SceneStore.ToggleCollision, SceneStore.Place, SceneStore.DeleteSelected, SceneStore.CheckCollisions |
