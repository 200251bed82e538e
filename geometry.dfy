/**
 * The vocabulary both turtles share: integer points and directions, the
 * rotation operators and their axes, and the condition under which a branch
 * stack never has to pop an empty stack.
 */
module Geometry {
  import opened Wrappers
  import opened Strings

  /** A point or a direction; the float coordinates of the source become integers. */
  datatype Vec3 = Vec3(x: int, y: int, z: int)

  function Add(a: Vec3, b: Vec3): Vec3 {
    Vec3(a.x + b.x, a.y + b.y, a.z + b.z)
  }

  /** Squared Euclidean distance: ordering by it is ordering by distance. */
  function SqDist(a: Vec3, b: Vec3): nat {
    (a.x - b.x) * (a.x - b.x) + (a.y - b.y) * (a.y - b.y) + (a.z - b.z) * (a.z - b.z)
  }

  datatype Axis = X | Y | Z

  /** A rotation operator: an axis and the sign of the angle. */
  datatype Turn = Turn(axis: Axis, positive: bool)

  /**
   * The rotation operator table: '+'/'-' turn about Z, '^'/'&' about Y and
   * '>'/'<' about X, the first of each pair by +alpha, the second by -alpha.
   * Every other character is not a rotation.
   */
  function TurnOf(c: char): (t: Option<Turn>)
    ensures t.Some? <==> c in "+-^&><"
  {
    match c
    case '+' => Some(Turn(Z, true))
    case '-' => Some(Turn(Z, false))
    case '^' => Some(Turn(Y, true))
    case '&' => Some(Turn(Y, false))
    case '>' => Some(Turn(X, true))
    case '<' => Some(Turn(X, false))
    case _ => None
  }

  /** The signed angle, in degrees, that a turn rotates by. */
  function SignedAngle(t: Turn, alpha: real): real {
    if t.positive then alpha else -alpha
  }

  /** Each pair of operators rotates about one axis by opposite angles. */
  lemma OppositePairs(alpha: real)
    ensures TurnOf('+').value.axis == TurnOf('-').value.axis == Z
    ensures TurnOf('^').value.axis == TurnOf('&').value.axis == Y
    ensures TurnOf('>').value.axis == TurnOf('<').value.axis == X
    ensures SignedAngle(TurnOf('+').value, alpha) == -SignedAngle(TurnOf('-').value, alpha) == alpha
    ensures SignedAngle(TurnOf('^').value, alpha) == -SignedAngle(TurnOf('&').value, alpha) == alpha
    ensures SignedAngle(TurnOf('>').value, alpha) == -SignedAngle(TurnOf('<').value, alpha) == alpha
  {
  }

  /**
   * Reading `s` with `depth` entries already on the branch stack, no ']'
   * meets an empty stack: every prefix keeps depth + #'[' - #']' >= 0.
   */
  predicate NoUnderflow(s: string, depth: nat)
    decreases |s|
  {
    if s == [] then true
    else if s[0] == ']' then depth > 0 && NoUnderflow(s[1..], depth - 1)
    else if s[0] == '[' then NoUnderflow(s[1..], depth + 1)
    else NoUnderflow(s[1..], depth)
  }

  /** More entries on the stack never hurt. */
  lemma {:induction false} NoUnderflowMonotone(s: string, depth: nat, more: nat)
    requires NoUnderflow(s, depth) && depth <= more
    ensures NoUnderflow(s, more)
    decreases |s|
  {
    if s != [] {
      if s[0] == ']' {
        NoUnderflowMonotone(s[1..], depth - 1, more - 1);
      } else if s[0] == '[' {
        NoUnderflowMonotone(s[1..], depth + 1, more + 1);
      } else {
        NoUnderflowMonotone(s[1..], depth, more);
      }
    }
  }

  /** Net number of entries a string pushes: #'[' - #']'. */
  function Net(s: string): int {
    CountChar(s, '[') - CountChar(s, ']')
  }

  /** Safe reading of a concatenation: the first part is safe, and the second from where it leaves the stack. */
  lemma {:induction false} NoUnderflowAppend(a: string, b: string, depth: nat)
    requires NoUnderflow(a + b, depth)
    ensures NoUnderflow(a, depth)
    ensures depth + Net(a) >= 0 && NoUnderflow(b, depth + Net(a))
    decreases |a|
  {
    if a == [] {
      assert a + b == b;
    } else {
      assert (a + b)[1..] == a[1..] + b;
      if a[0] == ']' {
        NoUnderflowAppend(a[1..], b, depth - 1);
      } else if a[0] == '[' {
        NoUnderflowAppend(a[1..], b, depth + 1);
      } else {
        NoUnderflowAppend(a[1..], b, depth);
      }
    }
  }
}
