/**
 * The turtle of Tortoise::computeAxiom (SysLBuilder): it walks a position,
 * records one point per 'F', turns its direction for the rotation operators
 * and saves and restores positions on a LIFO stack for '[' and ']'.
 */
module PositionTurtle {
  import opened Strings
  import opened Geometry

  /**
   * The walk state: the current position (nextPosition), the direction
   * (nextVector, whose w component stays 0 so only x, y, z are kept), the
   * position stack and the recorded points.
   */
  datatype Pen = Pen(position: Vec3, heading: Vec3, stack: seq<Vec3>, points: seq<Vec3>)

  /**
   * The effect of one character.  `rotate(axis, angle, v)` is the rotation of
   * `v` by `angle` degrees about the global axis.
   */
  function Step(p: Pen, c: char, alpha: real, rotate: (Axis, real, Vec3) -> Vec3): Pen
    requires c == ']' ==> p.stack != []
  {
    if c == 'F' then
      var next := Add(p.position, p.heading);
      p.(position := next, points := p.points + [next])
    else if c == '[' then
      p.(stack := p.stack + [p.position])
    else if c == ']' then
      p.(position := p.stack[|p.stack| - 1], stack := p.stack[..|p.stack| - 1])
    else if TurnOf(c).Some? then
      var t := TurnOf(c).value;
      p.(heading := rotate(t.axis, SignedAngle(t, alpha), p.heading))
    else
      p
  }

  /** The state after reading all of `s`. */
  function Walk(p: Pen, s: string, alpha: real, rotate: (Axis, real, Vec3) -> Vec3): Pen
    requires NoUnderflow(s, |p.stack|)
    decreases |s|
  {
    if s == [] then p
    else Walk(Step(p, s[0], alpha, rotate), s[1..], alpha, rotate)
  }

  /** Reading a concatenation is reading one part after the other. */
  lemma {:induction false} WalkAppend(p: Pen, a: string, b: string, alpha: real, rotate: (Axis, real, Vec3) -> Vec3)
    requires NoUnderflow(a + b, |p.stack|)
    ensures NoUnderflow(a, |p.stack|)
    ensures NoUnderflow(b, |Walk(p, a, alpha, rotate).stack|)
    ensures Walk(p, a + b, alpha, rotate) == Walk(Walk(p, a, alpha, rotate), b, alpha, rotate)
    decreases |a|
  {
    NoUnderflowAppend(a, b, |p.stack|);
    if a == [] {
      assert a + b == b;
    } else {
      assert (a + b)[0] == a[0];
      assert (a + b)[1..] == a[1..] + b;
      WalkAppend(Step(p, a[0], alpha, rotate), a[1..], b, alpha, rotate);
    }
  }

  /**
   * Points are only appended: the recorded points grow by exactly one per
   * 'F' and the earlier ones are kept as they were.
   */
  lemma {:induction false} WalkPoints(p: Pen, s: string, alpha: real, rotate: (Axis, real, Vec3) -> Vec3)
    requires NoUnderflow(s, |p.stack|)
    ensures var q := Walk(p, s, alpha, rotate);
            |q.points| == |p.points| + CountChar(s, 'F') && q.points[..|p.points|] == p.points
    decreases |s|
  {
    if s != [] {
      var p' := Step(p, s[0], alpha, rotate);
      WalkPoints(p', s[1..], alpha, rotate);
      assert p'.points[..|p.points|] == p.points;
    }
  }

  /** The stack ends with #'[' - #']' more entries than it started with. */
  lemma {:induction false} WalkDepth(p: Pen, s: string, alpha: real, rotate: (Axis, real, Vec3) -> Vec3)
    requires NoUnderflow(s, |p.stack|)
    ensures |Walk(p, s, alpha, rotate).stack| == |p.stack| + CountChar(s, '[') - CountChar(s, ']')
    decreases |s|
  {
    if s != [] {
      WalkDepth(Step(p, s[0], alpha, rotate), s[1..], alpha, rotate);
    }
  }

  /**
   * Entries that a string never reaches are left in place: reading a string
   * that is safe from depth `k` keeps all but the top `k` entries of the stack.
   */
  lemma {:induction false} WalkKeepsBase(p: Pen, s: string, k: nat, alpha: real, rotate: (Axis, real, Vec3) -> Vec3)
    requires k <= |p.stack| && NoUnderflow(s, k)
    ensures NoUnderflow(s, |p.stack|)
    ensures var q := Walk(p, s, alpha, rotate);
            |p.stack| - k <= |q.stack| && q.stack[..|p.stack| - k] == p.stack[..|p.stack| - k]
    decreases |s|
  {
    NoUnderflowMonotone(s, k, |p.stack|);
    if s != [] {
      var p' := Step(p, s[0], alpha, rotate);
      var k' := if s[0] == '[' then k + 1 else if s[0] == ']' then k - 1 else k;
      WalkKeepsBase(p', s[1..], k', alpha, rotate);
      assert |p'.stack| - k' == |p.stack| - k;
      assert p'.stack[..|p.stack| - k] == p.stack[..|p.stack| - k];
    }
  }

  /**
   * LIFO restore: after a bracketed string that is balanced on its own, the
   * position and the stack are those before the '['.
   */
  lemma BranchRestoresPosition(p: Pen, b: string, alpha: real, rotate: (Axis, real, Vec3) -> Vec3)
    requires NoUnderflow(b, 0) && CountChar(b, '[') == CountChar(b, ']')
    ensures NoUnderflow("[" + b + "]", |p.stack|)
    ensures var q := Walk(p, "[" + b + "]", alpha, rotate);
            q.position == p.position && q.stack == p.stack
  {
    var open := Step(p, '[', alpha, rotate);
    WalkKeepsBase(open, b, 0, alpha, rotate);
    WalkDepth(open, b, alpha, rotate);
    var inner := Walk(open, b, alpha, rotate);
    assert inner.stack == open.stack;
    assert NoUnderflow("]", |inner.stack|);
    NoUnderflowAppend2(b, |open.stack|);
    var s := "[" + b + "]";
    assert s[0] == '[' && s[1..] == b + "]";
    WalkAppend(open, b, "]", alpha, rotate);
  }

  lemma NoUnderflowAppend2(b: string, depth: nat)
    requires NoUnderflow(b, depth) && depth + Net(b) > 0
    ensures NoUnderflow(b + "]", depth)
    decreases |b|
  {
    if b == [] {
      assert b + "]" == "]";
    } else {
      assert (b + "]")[1..] == b[1..] + "]";
      if b[0] == ']' {
        NoUnderflowAppend2(b[1..], depth - 1);
      } else if b[0] == '[' {
        NoUnderflowAppend2(b[1..], depth + 1);
      } else {
        NoUnderflowAppend2(b[1..], depth);
      }
    }
  }

  /**
   * Only the position is restored: a turn inside a branch still holds after
   * the ']'.
   */
  lemma BranchKeepsHeading(p: Pen, alpha: real, rotate: (Axis, real, Vec3) -> Vec3)
    ensures NoUnderflow("[+]", |p.stack|)
    ensures var q := Walk(p, "[+]", alpha, rotate);
            q.position == p.position && q.heading == rotate(Z, alpha, p.heading)
  {
    assert "[+]"[1..] == "+]" && "+]"[1..] == "]" && "]"[1..] == [];
  }

  /**
   * Characters other than 'F', '[' and ']' touch only the direction: the
   * position, the stack and the points stay as they were.
   */
  lemma {:induction false} TurnsTouchOnlyHeading(p: Pen, s: string, alpha: real, rotate: (Axis, real, Vec3) -> Vec3)
    requires 'F' !in s && '[' !in s && ']' !in s
    ensures NoUnderflow(s, |p.stack|)
    ensures var q := Walk(p, s, alpha, rotate);
            q.position == p.position && q.stack == p.stack && q.points == p.points
    decreases |s|
  {
    if s != [] {
      assert s[0] in s;
      assert forall c :: c in s[1..] ==> c in s;
      TurnsTouchOnlyHeading(Step(p, s[0], alpha, rotate), s[1..], alpha, rotate);
    }
  }

  /**
   * A character that is neither 'F', '[', ']' nor a rotation operator ('|'
   * among them) has no case in the switch: reading only such characters
   * leaves the whole state, the direction included, as it was.
   */
  lemma {:induction false} OthersChangeNothing(p: Pen, s: string, alpha: real, rotate: (Axis, real, Vec3) -> Vec3)
    requires forall j :: 0 <= j < |s| ==> s[j] != 'F' && s[j] != '[' && s[j] != ']' && TurnOf(s[j]).None?
    ensures NoUnderflow(s, |p.stack|)
    ensures Walk(p, s, alpha, rotate) == p
    decreases |s|
  {
    if s != [] {
      OthersChangeNothing(p, s[1..], alpha, rotate);
    }
  }

  /**
   * "F[F]F" from the start of computeAxiom: the second and third 'F' both
   * leave from the point one step up, so the last two points coincide.
   */
  lemma BranchExample(origin: Vec3, alpha: real, rotate: (Axis, real, Vec3) -> Vec3)
    ensures NoUnderflow("F[F]F", 0)
    ensures var up := Vec3(0, 0, 1);
            var one := Add(origin, up);
            var two := Add(one, up);
            Walk(Pen(origin, up, [], [origin]), "F[F]F", alpha, rotate).points == [origin, one, two, two]
  {
    var s := "F[F]F";
    assert s[1..] == "[F]F" && s[1..][1..] == "F]F" && s[1..][1..][1..] == "]F";
    assert s[1..][1..][1..][1..] == "F" && "F"[1..] == [];
  }
}
