/** Properties of `toFeatures`: every accepted geometry is encoded on its own
    from the origin, ids count the accepted geometries from 1 and are
    consumed even when no feature results. */
module BatchProperties {
  import opened Wrappers
  import opened TileGeometry
  import opened CursorCodec
  import opened CommandEncoder
  import opened FeatureSpec
  import opened Flatten

  /** How many geometries of `gs` the filter accepts: none exactly when it
      rejects every one, all exactly when it accepts every one. */
  function Accepted(gs: seq<Geometry>, accept: Geometry -> bool): (n: nat)
    ensures n <= |gs|
    ensures n == 0 <==> forall k :: 0 <= k < |gs| ==> !accept(gs[k])
    ensures n == |gs| <==> forall k :: 0 <= k < |gs| ==> accept(gs[k])
  {
    if gs == [] then 0 else (if accept(gs[0]) then 1 else 0) + Accepted(gs[1..], accept)
  }

  /** Reference definition of a batch, geometry by geometry from the front:
      an accepted geometry yields the feature `feature` gives it with id
      `id`, and the next one gets `id + 1`. */
  function BatchSpec(feature: (Geometry, int) -> Option<Feature>, gs: seq<Geometry>, accept: Geometry -> bool, id: int): seq<Feature> {
    if gs == [] then []
    else if accept(gs[0]) then
      OptionList(feature(gs[0], id)) + BatchSpec(feature, gs[1..], accept, id + 1)
    else BatchSpec(feature, gs[1..], accept, id)
  }

  /** The batch loop from index `i` appends the reference features of the
      geometries still ahead. */
  lemma {:induction false} BatchRunFeatures(feature: (Geometry, int) -> Option<Feature>, rewrite: Geometry -> Geometry,
                                            accept: Geometry -> bool, i: nat, st: BatchState)
    requires i <= |st.values|
    ensures BatchRun(feature, rewrite, accept, i, st).features == st.features + BatchSpec(feature, st.values[i..], accept, st.nextId)
    decreases |st.values| - i
  {
    var vs := st.values;
    if i < |vs| {
      assert vs[i..][1..] == vs[i + 1..];
      assert vs[i..][0] == vs[i];
      if !accept(vs[i]) {
        BatchRunFeatures(feature, rewrite, accept, i + 1, st);
      } else {
        var f := OptionList(feature(vs[i], st.nextId));
        var st' := BatchState(st.features + f, st.nextId + 1, vs[i := rewrite(vs[i])]);
        assert st'.values[i + 1..] == vs[i + 1..];
        BatchRunFeatures(feature, rewrite, accept, i + 1, st');
        var rest := BatchSpec(feature, vs[i + 1..], accept, st.nextId + 1);
        assert (st.features + f) + rest == st.features + (f + rest);
      }
    } else {
      assert vs[i..] == [];
    }
  }

  /** The batch loop from index `i` advances the id by the number of
      geometries ahead that the filter accepts. */
  lemma {:induction false} BatchRunNextId(feature: (Geometry, int) -> Option<Feature>, rewrite: Geometry -> Geometry,
                                          accept: Geometry -> bool, i: nat, st: BatchState)
    requires i <= |st.values|
    ensures BatchRun(feature, rewrite, accept, i, st).nextId == st.nextId + Accepted(st.values[i..], accept)
    decreases |st.values| - i
  {
    var vs := st.values;
    if i < |vs| {
      assert vs[i..][1..] == vs[i + 1..];
      assert vs[i..][0] == vs[i];
      if !accept(vs[i]) {
        BatchRunNextId(feature, rewrite, accept, i + 1, st);
      } else {
        var st' := BatchState(st.features + OptionList(feature(vs[i], st.nextId)), st.nextId + 1, vs[i := rewrite(vs[i])]);
        assert st'.values[i + 1..] == vs[i + 1..];
        BatchRunNextId(feature, rewrite, accept, i + 1, st');
      }
    } else {
      assert vs[i..] == [];
    }
  }

  /** The batch loop from index `i` leaves the geometries before `i` alone
      and rewrites each one ahead exactly when the filter accepts it. */
  lemma {:induction false} BatchRunValues(feature: (Geometry, int) -> Option<Feature>, rewrite: Geometry -> Geometry,
                                          accept: Geometry -> bool, i: nat, st: BatchState)
    requires i <= |st.values|
    ensures var r := BatchRun(feature, rewrite, accept, i, st);
      && (forall k :: 0 <= k < i ==> r.values[k] == st.values[k])
      && (forall k :: i <= k < |st.values| ==> r.values[k] == if accept(st.values[k]) then rewrite(st.values[k]) else st.values[k])
    decreases |st.values| - i
  {
    var vs := st.values;
    if i < |vs| {
      if !accept(vs[i]) {
        BatchRunValues(feature, rewrite, accept, i + 1, st);
      } else {
        var st' := BatchState(st.features + OptionList(feature(vs[i], st.nextId)), st.nextId + 1, vs[i := rewrite(vs[i])]);
        BatchRunValues(feature, rewrite, accept, i + 1, st');
      }
    }
  }

  /** The geometry after the batch: encoded from the origin when accepted,
      untouched otherwise. */
  function AfterBatch(g: Geometry, accept: Geometry -> bool): Geometry {
    if accept(g) then ValueFromOrigin(g) else g
  }

  /** `toFeatures` on a flat list is the reference batch of `toFeature`
      from the origin with ids from 1, and leaves each accepted geometry as
      its own encoding from the origin leaves it. */
  lemma BatchIsSpec(gs: seq<Geometry>, accept: Geometry -> bool)
    requires AcceptedLinesNonEmpty(gs, accept)
    ensures EncodeBatch(gs, accept).features == BatchSpec(FeatureFromOrigin, gs, accept, 1)
    ensures forall k :: 0 <= k < |gs| ==> EncodeBatch(gs, accept).values[k] == AfterBatch(gs[k], accept)
  {
    if gs != [] {
      BatchRunFeatures(FeatureFromOrigin, ValueFromOrigin, accept, 0, BatchState([], 1, gs));
      BatchRunValues(FeatureFromOrigin, ValueFromOrigin, accept, 0, BatchState([], 1, gs));
      assert gs[0..] == gs;
    }
  }

  /** An encoder that gives every feature the id it is handed, a known type
      and at least one command. */
  ghost predicate WellFormedEncoder(feature: (Geometry, int) -> Option<Feature>) {
    forall g, n :: feature(g, n).Some? ==>
      feature(g, n).value.id == n && feature(g, n).value.geomType != UNKNOWN && |feature(g, n).value.geometry| >= 1
  }

  /** `toFeature` from the origin is such an encoder. */
  lemma FromOriginWellFormed()
    ensures WellFormedEncoder(FeatureFromOrigin)
  {
    forall g, n | FeatureFromOrigin(g, n).Some?
      ensures FeatureFromOrigin(g, n).value.id == n
      ensures FeatureFromOrigin(g, n).value.geomType != UNKNOWN && |FeatureFromOrigin(g, n).value.geometry| >= 1
    {
      var o := EncodeFeature(Coord(0, 0), g, n);
      assert o.feature == FeatureFromOrigin(g, n);
    }
  }

  /** Ids in a batch lie in `[id, id + Accepted)` and strictly increase;
      every feature has a type and commands. */
  lemma {:induction false} BatchSpecIds(feature: (Geometry, int) -> Option<Feature>, gs: seq<Geometry>, accept: Geometry -> bool, id: int)
    requires WellFormedEncoder(feature)
    ensures var fs := BatchSpec(feature, gs, accept, id);
      && |fs| <= Accepted(gs, accept)
      && (forall j :: 0 <= j < |fs| ==> id <= fs[j].id < id + Accepted(gs, accept))
      && (forall j :: 0 <= j < |fs| ==> fs[j].geomType != UNKNOWN && |fs[j].geometry| >= 1)
      && (forall j, k :: 0 <= j < k < |fs| ==> fs[j].id < fs[k].id)
  {
    if gs != [] {
      BatchSpecIds(feature, gs[1..], accept, if accept(gs[0]) then id + 1 else id);
    }
  }

  /** A filter that accepts nothing yields no feature and consumes no id. */
  lemma {:induction false} BatchNoneAccepted(feature: (Geometry, int) -> Option<Feature>, gs: seq<Geometry>, accept: Geometry -> bool, id: int)
    requires forall k :: 0 <= k < |gs| ==> !accept(gs[k])
    ensures BatchSpec(feature, gs, accept, id) == []
    ensures Accepted(gs, accept) == 0
  {
    if gs != [] {
      BatchNoneAccepted(feature, gs[1..], accept, id);
    }
  }

  /** A primitive geometry gives at most one feature, with id 1, encoded
      from the origin; none when the filter rejects it. */
  lemma PrimitiveGeometry(g: Geometry, accept: Geometry -> bool)
    requires IsPrimitive(g) && (accept(g) ==> LinesNonEmpty(g))
    ensures FlatLinesNonEmpty(g, accept)
    ensures EncodeGeometry(g, accept)
      == Some(if accept(g) then OptionList(EncodeFeature(Coord(0, 0), g, 1).feature) else [])
  {
    FlatPrimitive(g);
    BatchIsSpec([g], accept);
    assert [g][1..] == [];
    var f := OptionList(FeatureFromOrigin(g, 1));
    assert BatchSpec(FeatureFromOrigin, [g], accept, 1) == if accept(g) then f + [] else [];
    assert f + [] == f;
  }

  /** The features of any geometry have distinct, increasing ids from 1,
      a type and commands each. */
  lemma GeometryIds(g: Geometry, accept: Geometry -> bool)
    requires FlatLinesNonEmpty(g, accept)
    ensures var r := EncodeGeometry(g, accept);
      r.Some? ==>
        && (forall j :: 0 <= j < |r.value| ==> 1 <= r.value[j].id && r.value[j].geomType != UNKNOWN && |r.value[j].geometry| >= 1)
        && (forall j, k :: 0 <= j < k < |r.value| ==> r.value[j].id < r.value[k].id)
  {
    var flat := FlatSpec(g);
    if flat.Some? {
      BatchIsSpec(flat.value, accept);
      FromOriginWellFormed();
      BatchSpecIds(FeatureFromOrigin, flat.value, accept, 1);
    }
  }
}
