/** `flatFeatureList`: a geometry collection is taken apart with an explicit
    stack into the list of its feature-ready parts. As written, the number
    of children pushed for every collection popped is the child count of
    the ROOT geometry, not of the collection itself. */
module Flatten {
  import opened Wrappers
  import opened TileGeometry

  /** Number of geometry nodes in `g`, the measure that shrinks as the
      stack is worked off. */
  function Size(g: Geometry): (n: nat)
    ensures n >= 1
    decreases g, 1
  {
    if g.Collection? then 1 + StackSize(g.children) else 1
  }

  function StackSize(s: seq<Geometry>): nat
    decreases s, 0
  {
    if s == [] then 0 else StackSize(s[..|s| - 1]) + Size(s[|s| - 1])
  }

  lemma {:induction false} StackSizeAppend(a: seq<Geometry>, b: seq<Geometry>)
    ensures StackSize(a + b) == StackSize(a) + StackSize(b)
    decreases |b|
  {
    if b != [] {
      var ab := a + b;
      assert ab[..|ab| - 1] == a + b[..|b| - 1];
      StackSizeAppend(a, b[..|b| - 1]);
    } else {
      assert a + b == a;
    }
  }

  /** The first `n` children of a collection weigh no more than all of them. */
  lemma StackSizePrefix(s: seq<Geometry>, n: nat)
    requires n <= |s|
    ensures StackSize(s[..n]) <= StackSize(s)
  {
    assert s == s[..n] + s[n..];
    StackSizeAppend(s[..n], s[n..]);
  }

  /** Replacing the collection on top of the stack by some of its children
      shrinks the stack. */
  lemma PushChildrenSmaller(stack: seq<Geometry>, count: nat)
    requires stack != [] && stack[|stack| - 1].Collection?
    requires count <= |stack[|stack| - 1].children|
    ensures StackSize(stack[..|stack| - 1] + stack[|stack| - 1].children[..count]) < StackSize(stack)
  {
    var g := stack[|stack| - 1];
    StackSizePrefix(g.children, count);
    StackSizeAppend(stack[..|stack| - 1], g.children[..count]);
  }

  /** The loop of `flatFeatureList` on a stack whose top is its last
      element, with `count` the root's child count: a primitive is moved to
      the output; a collection is replaced by its first `count` children,
      and `None` stands for the index exception of a collection with fewer. */
  function FlatRun(count: nat, stack: seq<Geometry>, out: seq<Geometry>): Option<seq<Geometry>>
    decreases StackSize(stack)
  {
    if stack == [] then Some(out)
    else
      var g := stack[|stack| - 1];
      var rest := stack[..|stack| - 1];
      if IsPrimitive(g) then
        FlatRun(count, rest, out + [g])
      else if |g.children| < count then
        None
      else
        PushChildrenSmaller(stack, count);
        FlatRun(count, rest + g.children[..count], out)
  }

  /** `flatFeatureList(geom)`. */
  function FlatSpec(g: Geometry): Option<seq<Geometry>> {
    FlatRun(NumGeometries(g), [g], [])
  }

  /** The method as the source runs it: a stack of geometries and a list of
      results, both sequences here. */
  method FlatFeatureList(geom: Geometry) returns (singleGeoms: Option<seq<Geometry>>)
    ensures singleGeoms == FlatSpec(geom)
  {
    var out: seq<Geometry> := [];
    var geomStack: seq<Geometry> := [geom];
    var nextGeomCount := NumGeometries(geom);
    while geomStack != []
      invariant FlatRun(nextGeomCount, geomStack, out) == FlatSpec(geom)
      decreases StackSize(geomStack)
    {
      var nextGeom := geomStack[|geomStack| - 1];
      geomStack := geomStack[..|geomStack| - 1];
      if IsPrimitive(nextGeom) {
        out := out + [nextGeom];
      } else {
        ghost var rest := geomStack;
        var i := 0;
        while i < nextGeomCount
          invariant 0 <= i <= nextGeomCount && i <= |nextGeom.children|
          invariant geomStack == rest + nextGeom.children[..i]
        {
          if i >= |nextGeom.children| {
            return None;
          }
          geomStack := geomStack + [nextGeom.children[i]];
          i := i + 1;
        }
        PushChildrenSmaller(rest + [nextGeom], nextGeomCount);
      }
    }
    return Some(out);
  }

  // ---------------------------------------------------------------------
  // Properties

  /** Every geometry the flattening outputs is a primitive. */
  lemma {:induction false} FlatRunPrimitive(count: nat, stack: seq<Geometry>, out: seq<Geometry>)
    requires forall k :: 0 <= k < |out| ==> IsPrimitive(out[k])
    ensures var r := FlatRun(count, stack, out);
      r.Some? ==> forall k :: 0 <= k < |r.value| ==> IsPrimitive(r.value[k])
    decreases StackSize(stack)
  {
    if stack != [] {
      var g := stack[|stack| - 1];
      var rest := stack[..|stack| - 1];
      if IsPrimitive(g) {
        FlatRunPrimitive(count, rest, out + [g]);
      } else if |g.children| >= count {
        PushChildrenSmaller(stack, count);
        FlatRunPrimitive(count, rest + g.children[..count], out);
      }
    }
  }

  lemma FlatOnlyPrimitives(g: Geometry)
    ensures var r := FlatSpec(g);
      r.Some? ==> forall k :: 0 <= k < |r.value| ==> IsPrimitive(r.value[k])
  {
    FlatRunPrimitive(NumGeometries(g), [g], []);
  }

  /** One turn of the loop on a stack written as `rest + [g]`. */
  lemma FlatRunPop(count: nat, rest: seq<Geometry>, g: Geometry, out: seq<Geometry>)
    ensures FlatRun(count, rest + [g], out) ==
      if IsPrimitive(g) then FlatRun(count, rest, out + [g])
      else if |g.children| < count then None
      else FlatRun(count, rest + g.children[..count], out)
  {
    var stack := rest + [g];
    assert stack[..|stack| - 1] == rest;
  }

  /** A primitive flattens to itself alone. */
  lemma FlatPrimitive(g: Geometry)
    requires IsPrimitive(g)
    ensures FlatSpec(g) == Some([g])
  {
    FlatRunPop(NumGeometries(g), [], g, []);
    assert [] + [g] == [g];
  }

  /** A stack of primitives is output from the top down. */
  lemma {:induction false} FlatRunPrimitives(count: nat, stack: seq<Geometry>, out: seq<Geometry>)
    requires forall k :: 0 <= k < |stack| ==> IsPrimitive(stack[k])
    ensures FlatRun(count, stack, out) == Some(out + Reversed(stack))
    decreases |stack|
  {
    if stack != [] {
      var rest := stack[..|stack| - 1];
      var g := stack[|stack| - 1];
      assert stack == rest + [g];
      FlatRunPop(count, rest, g, out);
      FlatRunPrimitives(count, rest, out + [g]);
      assert Reversed(stack) == [g] + Reversed(rest);
      assert out + Reversed(stack) == out + [g] + Reversed(rest);
    } else {
      assert out + Reversed(stack) == out;
    }
  }

  /** `s` backwards: the order in which a stack pops. */
  function Reversed(s: seq<Geometry>): (r: seq<Geometry>)
    ensures |r| == |s|
    ensures forall k :: 0 <= k < |s| ==> r[k] == s[|s| - 1 - k]
  {
    if s == [] then [] else [s[|s| - 1]] + Reversed(s[..|s| - 1])
  }

  /** A collection of primitives flattens to its children in reverse order:
      the last child pushed is the first popped. */
  lemma FlatOneLevel(cs: seq<Geometry>)
    requires forall k :: 0 <= k < |cs| ==> IsPrimitive(cs[k])
    ensures FlatSpec(Collection(cs)) == Some(Reversed(cs))
  {
    var root := Collection(cs);
    assert FlatSpec(root) == FlatRun(|cs|, [root], []);
    FlatRunPop(|cs|, [], root, []);
    assert [] + [root] == [root];
    assert [] + cs[..|cs|] == cs;
    assert FlatRun(|cs|, [root], []) == FlatRun(|cs|, cs, []);
    FlatRunPrimitives(|cs|, cs, []);
    assert [] + Reversed(cs) == Reversed(cs);
  }

  /** A nested collection with fewer children than the root makes the
      flattening fail (the source throws). */
  lemma FlatNestedFewer(a: Geometry, b: Geometry)
    requires IsPrimitive(a) && IsPrimitive(b)
    ensures FlatSpec(Collection([Collection([a]), b])) == None
  {
    var inner := Collection([a]);
    var root := Collection([inner, b]);
    assert FlatSpec(root) == FlatRun(2, [root], []);
    FlatRunPop(2, [], root, []);
    assert [] + [root] == [root];
    assert [] + root.children[..2] == [inner] + [b];
    assert FlatRun(2, [root], []) == FlatRun(2, [inner] + [b], []);
    FlatRunPop(2, [inner], b, []);
    assert [] + [b] == [b];
    assert FlatRun(2, [inner] + [b], []) == FlatRun(2, [inner], [b]);
    FlatRunPop(2, [], inner, [b]);
    assert [] + [inner] == [inner];
    assert |inner.children| < 2;
  }

  /** A nested collection with more children than the root loses the
      children past the root's count. */
  lemma FlatNestedMore(a: Geometry, b: Geometry, c: Geometry, d: Geometry)
    requires IsPrimitive(a) && IsPrimitive(b) && IsPrimitive(c) && IsPrimitive(d)
    ensures FlatSpec(Collection([Collection([a, b, c]), d])) == Some([d, b, a])
  {
    var inner := Collection([a, b, c]);
    var root := Collection([inner, d]);
    assert FlatSpec(root) == FlatRun(2, [root], []);
    FlatRunPop(2, [], root, []);
    assert [] + [root] == [root];
    assert [] + root.children[..2] == [inner] + [d];
    assert FlatRun(2, [root], []) == FlatRun(2, [inner] + [d], []);
    FlatRunPop(2, [inner], d, []);
    assert [] + [d] == [d];
    assert FlatRun(2, [inner] + [d], []) == FlatRun(2, [inner], [d]);
    FlatRunPop(2, [], inner, [d]);
    assert [] + [inner] == [inner];
    assert [] + inner.children[..2] == [a, b];
    assert FlatRun(2, [inner], [d]) == FlatRun(2, [a, b], [d]);
    FlatRunPrimitives(2, [a, b], [d]);
    assert Reversed([a, b]) == [b, a];
    assert [d] + [b, a] == [d, b, a];
  }

  // ---------------------------------------------------------------------
  // The flattening the documentation describes: every collection pushes all
  // of its own children, so every primitive of the tree comes out.

  /** The primitives of `g`, children left to right. */
  function Leaves(g: Geometry): seq<Geometry>
    decreases g, 1
  {
    if g.Collection? then LeavesOf(g.children) else [g]
  }

  function LeavesOf(s: seq<Geometry>): seq<Geometry>
    decreases s, 0
  {
    if s == [] then [] else LeavesOf(s[..|s| - 1]) + Leaves(s[|s| - 1])
  }

  /** The corrected loop: a collection is replaced by all of its children. */
  function FlatRunIntended(stack: seq<Geometry>, out: seq<Geometry>): seq<Geometry>
    decreases StackSize(stack)
  {
    if stack == [] then out
    else
      var g := stack[|stack| - 1];
      var rest := stack[..|stack| - 1];
      if IsPrimitive(g) then
        FlatRunIntended(rest, out + [g])
      else
        PushChildrenSmaller(stack, |g.children|);
        assert g.children[..|g.children|] == g.children;
        FlatRunIntended(rest + g.children, out)
  }

  function FlatIntended(g: Geometry): seq<Geometry> {
    FlatRunIntended([g], [])
  }

  lemma {:induction false} LeavesOfAppend(a: seq<Geometry>, b: seq<Geometry>)
    ensures LeavesOf(a + b) == LeavesOf(a) + LeavesOf(b)
    decreases |b|
  {
    if b != [] {
      var ab := a + b;
      assert ab[..|ab| - 1] == a + b[..|b| - 1];
      LeavesOfAppend(a, b[..|b| - 1]);
    } else {
      assert a + b == a;
    }
  }

  lemma {:induction false} ReversedAppend(a: seq<Geometry>, b: seq<Geometry>)
    ensures Reversed(a + b) == Reversed(b) + Reversed(a)
  {
  }

  /** The corrected loop outputs the leaves of the stack, top of the stack
      first. */
  lemma {:induction false} FlatRunIntendedLeaves(stack: seq<Geometry>, out: seq<Geometry>)
    ensures FlatRunIntended(stack, out) == out + Reversed(LeavesOf(stack))
    decreases StackSize(stack)
  {
    if stack == [] {
      assert out + Reversed(LeavesOf(stack)) == out;
    } else {
      var g := stack[|stack| - 1];
      var rest := stack[..|stack| - 1];
      assert LeavesOf(stack) == LeavesOf(rest) + Leaves(g);
      ReversedAppend(LeavesOf(rest), Leaves(g));
      if IsPrimitive(g) {
        FlatRunIntendedLeaves(rest, out + [g]);
        assert Reversed([g]) == [g];
      } else {
        PushChildrenSmaller(stack, |g.children|);
        assert g.children[..|g.children|] == g.children;
        FlatRunIntendedLeaves(rest + g.children, out);
        LeavesOfAppend(rest, g.children);
        ReversedAppend(LeavesOf(rest), LeavesOf(g.children));
      }
    }
  }

  /** Corrected `flatFeatureList`: every primitive of the tree, in the
      order the stack pops them. */
  lemma FlatIntendedLeaves(g: Geometry)
    ensures FlatIntended(g) == Reversed(Leaves(g))
  {
    FlatRunIntendedLeaves([g], []);
    assert [g][..0] == [];
    assert LeavesOf([g]) == LeavesOf([]) + Leaves(g);
    assert [] + Leaves(g) == Leaves(g);
    assert [] + Reversed(Leaves(g)) == Reversed(Leaves(g));
  }

  /** The source as written and the correction disagree on a nested
      collection that has fewer children than the root: the source fails,
      the correction outputs both primitives. */
  lemma FlatNestedDisagrees(a: Geometry, b: Geometry)
    requires IsPrimitive(a) && IsPrimitive(b)
    ensures FlatSpec(Collection([Collection([a]), b])) == None
    ensures FlatIntended(Collection([Collection([a]), b])) == [b, a]
  {
    FlatNestedFewer(a, b);
    var g := Collection([Collection([a]), b]);
    FlatIntendedLeaves(g);
    assert [a][..0] == [];
    assert LeavesOf([a]) == [] + [a] == [a];
    assert [Collection([a])][..0] == [];
    assert LeavesOf([Collection([a])]) == [] + LeavesOf([a]) == [a];
    assert [Collection([a]), b][..1] == [Collection([a])];
    assert LeavesOf(g.children) == LeavesOf([Collection([a])]) + [b];
    assert Reversed([a, b]) == [b, a];
  }
}
