/**
 * The item pages of the PDF dossier: one page per distinct product reference, taken from the
 * first object in the scene that carries it, in scene order.
 */
module Dossier {
  import opened SceneStore

  /** The references carried by `objs`. */
  function RefSet(objs: seq<SceneObject>): set<string> {
    set i | 0 <= i < |objs| :: objs[i].ref
  }

  ghost predicate DistinctRefs(items: seq<SceneObject>) {
    forall i, j :: 0 <= i < j < |items| ==> items[i].ref != items[j].ref
  }

  /** `objs[i]` is the first object carrying its reference. */
  ghost predicate FirstOfRef(objs: seq<SceneObject>, i: int) {
    0 <= i < |objs| && objs[i].ref !in RefSet(objs[..i])
  }

  /** `x` is the first object in `objs` that carries its reference. */
  ghost predicate FirstItem(objs: seq<SceneObject>, x: SceneObject) {
    exists i :: FirstOfRef(objs, i) && x == objs[i]
  }

  /** The reference definition: the first object of every reference, in scene order. */
  function Dedup(objs: seq<SceneObject>): seq<SceneObject> {
    if |objs| == 0 then []
    else
      var front := objs[..|objs| - 1];
      var o := objs[|objs| - 1];
      if o.ref in RefSet(front) then Dedup(front) else Dedup(front) + [o]
  }

  lemma RefSetSnoc(objs: seq<SceneObject>, o: SceneObject)
    ensures RefSet(objs + [o]) == RefSet(objs) + {o.ref}
  {
    var t := objs + [o];
    assert t[|objs|] == o;
    assert forall i :: 0 <= i < |objs| ==> t[i] == objs[i];
  }

  /** The de-duplicated items carry pairwise distinct references and cover every reference. */
  lemma {:induction false} DedupRefs(objs: seq<SceneObject>)
    ensures DistinctRefs(Dedup(objs)) && RefSet(Dedup(objs)) == RefSet(objs)
    decreases |objs|
  {
    if |objs| > 0 {
      var n := |objs| - 1;
      var front, o := objs[..n], objs[n];
      assert objs == front + [o];
      DedupRefs(front);
      RefSetSnoc(front, o);
      var r0 := Dedup(front);
      if o.ref !in RefSet(front) {
        RefSetSnoc(r0, o);
        assert forall k :: 0 <= k < |r0| ==> r0[k].ref in RefSet(r0);
      }
    }
  }

  /** Each de-duplicated item is the first object in the scene with its reference. */
  lemma {:induction false} DedupFirsts(objs: seq<SceneObject>)
    ensures forall k :: 0 <= k < |Dedup(objs)| ==> FirstItem(objs, Dedup(objs)[k])
    decreases |objs|
  {
    if |objs| > 0 {
      var n := |objs| - 1;
      var front, o := objs[..n], objs[n];
      DedupFirsts(front);
      var r0 := Dedup(front);
      var r := Dedup(objs);
      assert r == if o.ref in RefSet(front) then r0 else r0 + [o];
      forall k | 0 <= k < |r|
        ensures FirstItem(objs, r[k])
      {
        if k < |r0| {
          assert FirstItem(front, r0[k]);
          var i :| FirstOfRef(front, i) && r0[k] == front[i];
          assert objs[..i] == front[..i];
          assert FirstOfRef(objs, i) && r[k] == objs[i];
        } else {
          assert FirstOfRef(objs, n) && r[k] == objs[n];
        }
      }
    }
  }

  /**
   * The de-duplicated items carry pairwise distinct references, cover every reference in the
   * scene, and each of them is the first object in the scene with its reference.
   */
  lemma DedupCharacterised(objs: seq<SceneObject>)
    ensures var r := Dedup(objs);
      DistinctRefs(r) && RefSet(r) == RefSet(objs)
      && forall k :: 0 <= k < |r| ==> FirstItem(objs, r[k])
  {
    DedupRefs(objs);
    DedupFirsts(objs);
  }

  /** Items already chosen for a prefix of the scene stay chosen, in the same order. */
  lemma {:induction false} DedupPrefix(objs: seq<SceneObject>, i: nat)
    requires i <= |objs|
    ensures Dedup(objs[..i]) <= Dedup(objs)
    decreases |objs| - i
  {
    if i < |objs| {
      var n := |objs| - 1;
      assert objs[..n][..i] == objs[..i];
      DedupPrefix(objs[..n], i);
    } else {
      assert objs[..i] == objs;
    }
  }

  /**
   * The dossier's item loop: it skips an object whose reference is already in `seen`, and
   * otherwise records the reference and takes the object.
   */
  method DossierItems(objs: seq<SceneObject>) returns (items: seq<SceneObject>)
    ensures items == Dedup(objs)
    ensures DistinctRefs(items) && RefSet(items) == RefSet(objs)
  {
    items := [];
    var seen: set<string> := {};
    for i := 0 to |objs|
      invariant items == Dedup(objs[..i])
      invariant seen == RefSet(objs[..i])
    {
      var o := objs[i];
      assert objs[..i + 1] == objs[..i] + [o];
      RefSetSnoc(objs[..i], o);
      if o.ref !in seen {
        seen := seen + {o.ref};
        items := items + [o];
      }
    }
    assert objs[..|objs|] == objs;
    DedupCharacterised(objs);
  }
}
