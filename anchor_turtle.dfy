/**
 * The turtle of the Blender add-on (render_axiom): a direction `vec`, a stack
 * of saved vertex positions and a sticky `source` anchor, building a mesh by
 * extrusion.  The Blender mesh is modelled as a sequence of vertices, each
 * with the index of the vertex it was extruded from.
 */
module AnchorTurtle {
  import opened Wrappers
  import opened Strings
  import opened Geometry

  /** A mesh vertex and the vertex it was extruded from (None for the created point). */
  datatype Vertex = Vertex(co: Vec3, parent: Option<nat>)

  /** Every extruded vertex hangs off an earlier vertex: the edges form a tree. */
  ghost predicate WellLinked(mesh: seq<Vertex>) {
    forall i :: 0 <= i < |mesh| && mesh[i].parent.Some? ==> mesh[i].parent.value < i
  }

  /**
   * min(bm.verts, key=distance to target): the first vertex, in vertex order,
   * whose distance to `target` is least.
   */
  function Nearest(mesh: seq<Vertex>, target: Vec3): (k: nat)
    requires |mesh| > 0
    ensures k < |mesh|
    ensures forall j :: 0 <= j < |mesh| ==> SqDist(mesh[k].co, target) <= SqDist(mesh[j].co, target)
    ensures forall j :: 0 <= j < k ==> SqDist(mesh[k].co, target) < SqDist(mesh[j].co, target)
    decreases |mesh|
  {
    if |mesh| == 1 then 0
    else
      var k := Nearest(mesh[..|mesh| - 1], target);
      if SqDist(mesh[|mesh| - 1].co, target) < SqDist(mesh[k].co, target) then |mesh| - 1 else k
  }

  /** last_extrude: the position of the last vertex, None when the mesh has none. */
  function LastExtrude(mesh: seq<Vertex>): (r: Option<Vec3>)
    ensures r.Some? <==> |mesh| > 0
    ensures r.Some? ==> r.value == mesh[|mesh| - 1].co
  {
    if |mesh| == 0 then None else Some(mesh[|mesh| - 1].co)
  }

  /**
   * The vertex extrude_object extrudes from: the one nearest the anchor when
   * an anchor is set, otherwise the last vertex.
   */
  function Anchor(mesh: seq<Vertex>, source: Option<Vec3>): (a: nat)
    requires |mesh| > 0
    ensures a < |mesh|
    ensures source.None? ==> a == |mesh| - 1
    ensures source.Some? ==> forall j :: 0 <= j < |mesh| ==>
              SqDist(mesh[a].co, source.value) <= SqDist(mesh[j].co, source.value)
    ensures source.Some? ==> forall j :: 0 <= j < a ==>
              SqDist(mesh[a].co, source.value) < SqDist(mesh[j].co, source.value)
  {
    if source.Some? then Nearest(mesh, source.value) else |mesh| - 1
  }

  /**
   * extrude_object: one new vertex at the anchor vertex plus `vec`, linked to
   * the anchor.  On a mesh without vertices nothing happens.
   */
  function ExtrudeObject(mesh: seq<Vertex>, vec: Vec3, source: Option<Vec3>): (m: seq<Vertex>)
    ensures |mesh| == 0 ==> m == mesh
    ensures |mesh| > 0 ==>
              && |m| == |mesh| + 1 && m[..|mesh|] == mesh
              && m[|mesh|].parent == Some(Anchor(mesh, source))
              && m[|mesh|].co == Add(mesh[Anchor(mesh, source)].co, vec)
    ensures WellLinked(mesh) ==> WellLinked(m)
  {
    if |mesh| == 0 then mesh
    else
      var a := Anchor(mesh, source);
      mesh + [Vertex(Add(mesh[a].co, vec), Some(a))]
  }

  /**
   * The turtle state: the direction `vec`, `state_stack` (what last_extrude
   * returned at each '['), the anchor `source` and the mesh built so far.
   */
  datatype Turtle = Turtle(vec: Vec3, stack: seq<Option<Vec3>>, source: Option<Vec3>, mesh: seq<Vertex>)

  /** How render_axiom starts: one point at the origin, direction (step, 0, 0), no anchor. */
  function Start(origin: Vec3, step: int): Turtle {
    Turtle(Vec3(step, 0, 0), [], None, [Vertex(origin, None)])
  }

  /** The effect of one character, for a ']' that finds a non-empty stack. */
  function Step(t: Turtle, c: char, alpha: real, rotate: (Axis, real, Vec3) -> Vec3): Turtle
    requires c == ']' ==> t.stack != []
  {
    if c == 'F' then
      t.(mesh := ExtrudeObject(t.mesh, t.vec, t.source))
    else if TurnOf(c).Some? then
      var r := TurnOf(c).value;
      t.(vec := rotate(r.axis, SignedAngle(r, alpha), t.vec))
    else if c == '[' then
      t.(stack := t.stack + [LastExtrude(t.mesh)])
    else if c == ']' then
      t.(source := t.stack[|t.stack| - 1], stack := t.stack[..|t.stack| - 1])
    else
      t
  }

  /**
   * How reading stops: the state reached, and the offset of the ']' that
   * found the stack empty (Python's IndexError), if any.
   */
  datatype Outcome = Outcome(turtle: Turtle, failedAt: Option<nat>)

  /** Reading s[i..] from `t`. */
  function Run(t: Turtle, s: string, i: nat, alpha: real, rotate: (Axis, real, Vec3) -> Vec3): Outcome
    requires i <= |s|
    decreases |s| - i
  {
    if i == |s| then Outcome(t, None)
    else if s[i] == ']' && t.stack == [] then Outcome(t, Some(i))
    else Run(Step(t, s[i], alpha, rotate), s, i + 1, alpha, rotate)
  }

  /** render_axiom on an expanded expression. */
  function Render(expression: string, origin: Vec3, step: int, alpha: real,
                  rotate: (Axis, real, Vec3) -> Vec3): Outcome
  {
    Run(Start(origin, step), expression, 0, alpha, rotate)
  }

  /**
   * Reading fails exactly when some prefix pops more than the stack holds,
   * and then at the first ']' that finds the stack empty: everything read
   * before it is safe and leaves the stack with no entry.
   */
  lemma {:induction false} RunFailsOnUnderflow(t: Turtle, s: string, i: nat, alpha: real,
                                               rotate: (Axis, real, Vec3) -> Vec3)
    requires i <= |s|
    ensures var o := Run(t, s, i, alpha, rotate);
            (o.failedAt.None? <==> NoUnderflow(s[i..], |t.stack|))
            && (o.failedAt.Some? ==> i <= o.failedAt.value < |s| && s[o.failedAt.value] == ']')
            && (o.failedAt.Some? ==>
                  NoUnderflow(s[i..o.failedAt.value], |t.stack|)
                  && |t.stack| + Net(s[i..o.failedAt.value]) == 0)
    decreases |s| - i
  {
    if i < |s| {
      assert s[i..][0] == s[i] && s[i..][1..] == s[i + 1..];
      if !(s[i] == ']' && t.stack == []) {
        var o := Run(Step(t, s[i], alpha, rotate), s, i + 1, alpha, rotate);
        RunFailsOnUnderflow(Step(t, s[i], alpha, rotate), s, i + 1, alpha, rotate);
        if o.failedAt.Some? {
          var f := o.failedAt.value;
          assert s[i..f][0] == s[i] && s[i..f][1..] == s[i + 1..f];
        }
      } else {
        assert s[i..i] == [];
      }
    }
  }

  /**
   * The mesh only grows, by one vertex per 'F' read before reading stopped,
   * and every new vertex hangs off an earlier one.
   */
  lemma {:induction false} RunPoints(t: Turtle, s: string, i: nat, alpha: real,
                                     rotate: (Axis, real, Vec3) -> Vec3)
    requires i <= |s| && |t.mesh| > 0
    ensures var o := Run(t, s, i, alpha, rotate);
            var end := if o.failedAt.Some? then o.failedAt.value else |s|;
            i <= end <= |s|
            && |o.turtle.mesh| == |t.mesh| + CountChar(s[i..end], 'F')
            && o.turtle.mesh[..|t.mesh|] == t.mesh
            && (WellLinked(t.mesh) ==> WellLinked(o.turtle.mesh))
    decreases |s| - i
  {
    RunFailsOnUnderflow(t, s, i, alpha, rotate);
    if i < |s| && !(s[i] == ']' && t.stack == []) {
      var t' := Step(t, s[i], alpha, rotate);
      RunPoints(t', s, i + 1, alpha, rotate);
      var o := Run(t, s, i, alpha, rotate);
      var end := if o.failedAt.Some? then o.failedAt.value else |s|;
      assert s[i..end][0] == s[i] && s[i..end][1..] == s[i + 1..end];
      assert t'.mesh[..|t.mesh|] == t.mesh;
    }
  }

  /**
   * Successful reading leaves #'[' - #']' entries on the stack.
   */
  lemma {:induction false} RunDepth(t: Turtle, s: string, i: nat, alpha: real,
                                    rotate: (Axis, real, Vec3) -> Vec3)
    requires i <= |s|
    requires Run(t, s, i, alpha, rotate).failedAt.None?
    ensures |Run(t, s, i, alpha, rotate).turtle.stack| == |t.stack| + CountChar(s[i..], '[') - CountChar(s[i..], ']')
    decreases |s| - i
  {
    if i < |s| {
      assert s[i..][0] == s[i] && s[i..][1..] == s[i + 1..];
      RunDepth(Step(t, s[i], alpha, rotate), s, i + 1, alpha, rotate);
    }
  }

  /**
   * The anchor is sticky: without a ']' in the rest of the expression,
   * reading cannot fail and the anchor set by the last ']' is still set at
   * the end, so it served every 'F' on the way.
   */
  lemma {:induction false} StickySource(t: Turtle, s: string, i: nat, alpha: real,
                                        rotate: (Axis, real, Vec3) -> Vec3)
    requires i <= |s| && ']' !in s[i..]
    ensures Run(t, s, i, alpha, rotate).failedAt.None?
    ensures Run(t, s, i, alpha, rotate).turtle.source == t.source
    decreases |s| - i
  {
    if i < |s| {
      assert s[i] == s[i..][0];
      assert s[i + 1..] == s[i..][1..];
      StickySource(Step(t, s[i], alpha, rotate), s, i + 1, alpha, rotate);
    }
  }

  /**
   * The rotation characters and every character with no meaning touch only
   * `vec`: a rest without 'F', '[' or ']' cannot fail and leaves the mesh,
   * the stack and the anchor as they were.
   */
  lemma {:induction false} TurnsTouchOnlyVec(t: Turtle, s: string, i: nat, alpha: real,
                                             rotate: (Axis, real, Vec3) -> Vec3)
    requires i <= |s|
    requires forall j :: i <= j < |s| ==> s[j] != 'F' && s[j] != '[' && s[j] != ']'
    ensures var o := Run(t, s, i, alpha, rotate);
            && o.failedAt.None?
            && o.turtle.mesh == t.mesh && o.turtle.stack == t.stack && o.turtle.source == t.source
    decreases |s| - i
  {
    if i < |s| {
      TurnsTouchOnlyVec(Step(t, s[i], alpha, rotate), s, i + 1, alpha, rotate);
    }
  }

  /**
   * A character that is neither 'F', '[', ']' nor a rotation operator matches
   * none of the `if`s of the loop: reading only such characters leaves the
   * whole turtle, `vec` included, as it was.
   */
  lemma {:induction false} OthersChangeNothing(t: Turtle, s: string, i: nat, alpha: real,
                                               rotate: (Axis, real, Vec3) -> Vec3)
    requires i <= |s|
    requires forall j :: i <= j < |s| ==> s[j] != 'F' && s[j] != '[' && s[j] != ']' && TurnOf(s[j]).None?
    ensures Run(t, s, i, alpha, rotate) == Outcome(t, None)
    decreases |s| - i
  {
    if i < |s| {
      OthersChangeNothing(t, s, i + 1, alpha, rotate);
    }
  }

  /** Reading up to offset `k` and then on from there is reading the whole. */
  lemma {:induction false} RunMid(t: Turtle, s: string, i: nat, k: nat, alpha: real,
                                  rotate: (Axis, real, Vec3) -> Vec3)
    requires i <= k <= |s|
    requires Run(t, s[..k], i, alpha, rotate).failedAt.None?
    ensures Run(t, s, i, alpha, rotate) == Run(Run(t, s[..k], i, alpha, rotate).turtle, s, k, alpha, rotate)
    decreases k - i
  {
    if i < k {
      assert s[..k][i] == s[i];
      RunMid(Step(t, s[i], alpha, rotate), s, i + 1, k, alpha, rotate);
    }
  }

  /**
   * The saved positions below the top `k` are never touched by a rest that
   * is safe from depth `k`: it pops at most what it pushed on top of them.
   */
  lemma {:induction false} RunKeepsBase(t: Turtle, s: string, i: nat, k: nat, alpha: real,
                                        rotate: (Axis, real, Vec3) -> Vec3)
    requires i <= |s| && k <= |t.stack| && NoUnderflow(s[i..], k)
    ensures var o := Run(t, s, i, alpha, rotate);
            && o.failedAt.None?
            && |t.stack| - k <= |o.turtle.stack|
            && o.turtle.stack[..|t.stack| - k] == t.stack[..|t.stack| - k]
    decreases |s| - i
  {
    NoUnderflowMonotone(s[i..], k, |t.stack|);
    RunFailsOnUnderflow(t, s, i, alpha, rotate);
    if i < |s| {
      assert s[i..][0] == s[i] && s[i..][1..] == s[i + 1..];
      var t' := Step(t, s[i], alpha, rotate);
      var k' := if s[i] == '[' then k + 1 else if s[i] == ']' then k - 1 else k;
      RunKeepsBase(t', s, i + 1, k', alpha, rotate);
      assert |t'.stack| - k' == |t.stack| - k;
      assert t'.stack[..|t.stack| - k] == t.stack[..|t.stack| - k];
    }
  }

  /**
   * LIFO: reading "[" + b + "]", with b balanced and safe on its own, cannot
   * fail, leaves the stack as it was, and makes the anchor the position of
   * the last vertex at the '[' — whatever b drew or anchored meanwhile.
   */
  lemma BranchSetsSource(t: Turtle, b: string, alpha: real, rotate: (Axis, real, Vec3) -> Vec3)
    requires NoUnderflow(b, 0) && CountChar(b, '[') == CountChar(b, ']')
    ensures var o := Run(t, "[" + b + "]", 0, alpha, rotate);
            && o.failedAt.None?
            && o.turtle.source == LastExtrude(t.mesh)
            && o.turtle.stack == t.stack
  {
    var s := "[" + b + "]";
    var n := |b| + 1;
    var open := Step(t, '[', alpha, rotate);
    assert s[0] == '[';
    assert Run(t, s, 0, alpha, rotate) == Run(open, s, 1, alpha, rotate);
    assert s[..n][1..] == b;
    RunKeepsBase(open, s[..n], 1, 0, alpha, rotate);
    RunDepth(open, s[..n], 1, alpha, rotate);
    var inner := Run(open, s[..n], 1, alpha, rotate).turtle;
    assert inner.stack == open.stack;
    RunMid(open, s, 1, n, alpha, rotate);
    assert s[n] == ']';
    assert Run(inner, s, n, alpha, rotate) == Run(Step(inner, ']', alpha, rotate), s, n + 1, alpha, rotate);
  }

  /** The first vertex at least distance from `target` is the one Nearest picks. */
  lemma NearestIs(mesh: seq<Vertex>, target: Vec3, k: nat)
    requires k < |mesh|
    requires forall j :: 0 <= j < |mesh| ==> SqDist(mesh[k].co, target) <= SqDist(mesh[j].co, target)
    requires forall j :: 0 <= j < k ==> SqDist(mesh[k].co, target) < SqDist(mesh[j].co, target)
    ensures Nearest(mesh, target) == k
  {
  }

  /** Distances between points one unit apart along x. */
  lemma UnitApart(a: Vec3)
    ensures var b := Add(a, Vec3(1, 0, 0));
            var c := Add(b, Vec3(1, 0, 0));
            SqDist(a, b) == 1 && SqDist(b, b) == 0 && SqDist(c, b) == 1
  {
  }

  /** The first vertex at unit distance is the nearest to `target` in `mesh`. */
  lemma AnchorIsSecond(mesh: seq<Vertex>, target: Vec3)
    requires |mesh| >= 2 && mesh[1].co == target && SqDist(mesh[0].co, target) > 0
    ensures Nearest(mesh, target) == 1
  {
    forall j | 0 <= j < |mesh| ensures SqDist(mesh[1].co, target) <= SqDist(mesh[j].co, target) {
    }
    NearestIs(mesh, target, 1);
  }

  /** "F[F]" from the start: two extrusions in a row and the first one saved, then restored as the anchor. */
  lemma BranchOpens(origin: Vec3, alpha: real, rotate: (Axis, real, Vec3) -> Vec3)
    ensures var v := Vec3(1, 0, 0);
            var one := Add(origin, v);
            var two := Add(one, v);
            var m := [Vertex(origin, None), Vertex(one, Some(0)), Vertex(two, Some(1))];
            var t1 := Step(Start(origin, 1), 'F', alpha, rotate);
            var t2 := Step(t1, '[', alpha, rotate);
            var t3 := Step(t2, 'F', alpha, rotate);
            && t3.stack != []
            && Step(t3, ']', alpha, rotate) == Turtle(v, [], Some(one), m)
  {
    var v := Vec3(1, 0, 0);
    var one := Add(origin, v);
    var m1 := [Vertex(origin, None), Vertex(one, Some(0))];
    var t1 := Step(Start(origin, 1), 'F', alpha, rotate);
    assert t1 == Turtle(v, [], None, m1);
    var t2 := Step(t1, '[', alpha, rotate);
    assert t2 == Turtle(v, [Some(one)], None, m1);
    var t3 := Step(t2, 'F', alpha, rotate);
    assert t3 == Turtle(v, [Some(one)], None, m1 + [Vertex(Add(one, v), Some(1))]);
  }

  /** After the ']' both 'F' extrude from vertex 1, the one at the restored anchor. */
  lemma BranchResumes(origin: Vec3, alpha: real, rotate: (Axis, real, Vec3) -> Vec3)
    ensures var v := Vec3(1, 0, 0);
            var one := Add(origin, v);
            var two := Add(one, v);
            var m := [Vertex(origin, None), Vertex(one, Some(0)), Vertex(two, Some(1))];
            var t5 := Step(Turtle(v, [], Some(one), m), 'F', alpha, rotate);
            && t5 == Turtle(v, [], Some(one), m + [Vertex(two, Some(1))])
            && Step(t5, 'F', alpha, rotate) == Turtle(v, [], Some(one), m + [Vertex(two, Some(1)), Vertex(two, Some(1))])
  {
    var v := Vec3(1, 0, 0);
    var one := Add(origin, v);
    var two := Add(one, v);
    var m := [Vertex(origin, None), Vertex(one, Some(0)), Vertex(two, Some(1))];
    UnitApart(origin);
    AnchorIsSecond(m, one);
    AnchorIsSecond(m + [Vertex(two, Some(1))], one);
  }

  /**
   * "F[F]FF" with a direction that never turns: the '[' saves the first
   * extruded vertex; after the ']' that vertex is the anchor for both later
   * 'F', so vertices 2, 3 and 4 all hang off vertex 1 at the same spot.
   */
  lemma BranchExample(origin: Vec3, alpha: real, rotate: (Axis, real, Vec3) -> Vec3)
    ensures var o := Render("F[F]FF", origin, 1, alpha, rotate);
            var one := Add(origin, Vec3(1, 0, 0));
            var two := Add(one, Vec3(1, 0, 0));
            o.failedAt.None?
            && o.turtle.mesh == [Vertex(origin, None), Vertex(one, Some(0)), Vertex(two, Some(1)),
                                 Vertex(two, Some(1)), Vertex(two, Some(1))]
  {
    var s := "F[F]FF";
    BranchOpens(origin, alpha, rotate);
    BranchResumes(origin, alpha, rotate);
    var t0 := Start(origin, 1);
    var t1 := Step(t0, 'F', alpha, rotate);
    var t2 := Step(t1, '[', alpha, rotate);
    var t3 := Step(t2, 'F', alpha, rotate);
    var t4 := Step(t3, ']', alpha, rotate);
    var t5 := Step(t4, 'F', alpha, rotate);
    var t6 := Step(t5, 'F', alpha, rotate);
    assert Run(t6, s, 6, alpha, rotate) == Outcome(t6, None);
    assert Run(t5, s, 5, alpha, rotate) == Run(t6, s, 6, alpha, rotate);
    assert Run(t4, s, 4, alpha, rotate) == Run(t5, s, 5, alpha, rotate);
    assert Run(t3, s, 3, alpha, rotate) == Run(t4, s, 4, alpha, rotate);
    assert Run(t2, s, 2, alpha, rotate) == Run(t3, s, 3, alpha, rotate);
    assert Run(t1, s, 1, alpha, rotate) == Run(t2, s, 2, alpha, rotate);
    assert Run(t0, s, 0, alpha, rotate) == Run(t1, s, 1, alpha, rotate);
  }

  /** "]F": the ']' meets an empty stack, so reading stops at offset 0 with the created point only. */
  lemma UnderflowExample(origin: Vec3, step: int, alpha: real, rotate: (Axis, real, Vec3) -> Vec3)
    ensures Render("]F", origin, step, alpha, rotate) == Outcome(Start(origin, step), Some(0))
  {
  }
}
