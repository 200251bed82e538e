/**
 * SysL::Tortoise: the C++ rule table and grammar engine (identical in the
 * SysL and SysLBuilder builds) and the SysLBuilder turtle computeAxiom.
 */
module Tortoise {
  import opened Strings
  import opened Rewriting
  import opened RuleTable
  import opened Geometry
  import opened PositionTurtle

  class Tortoise {
    /** The std::map of rules, as its entries in ascending key order. */
    var rules: seq<Rule>
    /** positionStack: a std::stack whose top is the last element. */
    var positionStack: seq<Vec3>
    /** positions: the points computeAxiom records (SysLBuilder build). */
    var positions: seq<Vec3>

    ghost predicate Valid()
      reads this
    {
      Ascending(rules)
    }

    /** The rule table as a mapping from name to body. */
    function Rules(): map<string, string>
      reads this
    {
      ToMap(rules)
    }

    constructor ()
      ensures Valid()
      ensures rules == [] && positionStack == [] && positions == []
    {
      rules := [];
      positionStack := [];
      positions := [];
    }

    /**
     * addRule: cuts the row at its first '=' (see ParseRow) and inserts the
     * rule only when its name is not in the table yet; the first body stored
     * for a name wins.
     */
    method AddRule(expression: string)
      requires Valid()
      modifies this`rules
      ensures Valid()
      ensures rules == Insert(old(rules), ParseRow(expression))
      ensures var r := ParseRow(expression);
              Rules() == if r.name in old(Rules()) then old(Rules()) else old(Rules())[r.name := r.body]
    {
      rules := Insert(rules, ParseRow(expression));
    }

    /** removeRule: erases exactly the entry for `name`; nothing happens when it is absent. */
    method RemoveRule(name: string)
      requires Valid()
      modifies this`rules
      ensures Valid()
      ensures rules == Erase(old(rules), name)
      ensures Rules() == old(Rules()) - {name}
    {
      rules := Erase(rules, name);
    }

    /** clearRules: empties the table. */
    method ClearRules()
      modifies this`rules
      ensures Valid()
      ensures rules == [] && Rules() == map[]
    {
      rules := [];
    }

    /**
     * generateAxiom: `iterations` passes over the expression, each applying
     * the rules in ascending key order to one working string, each rule a
     * find/replace scan that resumes after the text it inserted.  A rule with
     * an empty name would make that scan run forever, so every name must be
     * non-empty once a pass is run.  The table is left as it was.
     */
    method GenerateAxiom(expression: string, iterations: nat) returns (result: string)
      requires iterations > 0 ==> NamesNonEmpty(rules)
      ensures iterations == 0 ==> result == expression
      ensures iterations > 0 ==> result == Expand(expression, rules, iterations)
    {
      result := expression;
      var i: nat := 0;
      while i < iterations
        invariant i <= iterations
        invariant i == 0 ==> result == expression
        invariant iterations > 0 ==> Expand(result, rules, iterations - i) == Expand(expression, rules, iterations)
      {
        var newResult := result;
        var j := 0;
        while j < |rules|
          invariant j <= |rules|
          invariant NamesNonEmpty(rules[j..])
          invariant Pass(newResult, rules[j..]) == Pass(result, rules)
        {
          var name, body := rules[j].name, rules[j].body;
          ghost var before := newResult;
          var pos: nat := 0;
          var found := Find(newResult, name, pos);
          while found.Some?
            invariant pos <= |newResult|
            invariant found == Find(newResult, name, pos)
            invariant newResult[..pos] + ReplaceAll(newResult[pos..], name, body) == ReplaceAll(before, name, body)
            decreases |newResult| - pos
          {
            var p := found.value;
            ReplaceStep(newResult, name, body, pos, p);
            newResult := newResult[..p] + body + newResult[p + |name|..];
            pos := p + |body|;
            found := Find(newResult, name, pos);
          }
          ReplaceAllNoMore(newResult, name, body, pos);
          assert newResult[..pos] + newResult[pos..] == newResult;
          assert rules[j..][0] == rules[j] && rules[j..][1..] == rules[j + 1..];
          j := j + 1;
        }
        assert rules[0..] == rules;
        result := newResult;
        i := i + 1;
      }
    }

    /**
     * computeAxiom: records `origin`, then walks `axiom` from `origin` with
     * the direction (0, 0, 1), recording one point per 'F'.  The stack is not
     * cleared on entry, and a ']' reached with an empty stack would read the
     * top of an empty std::stack, so no prefix may pop more than the stack
     * holds.  `rotate` stands for glm::rotate by `alpha` degrees about a
     * global axis.
     */
    method ComputeAxiom(axiom: string, origin: Vec3, alpha: real, rotate: (Axis, real, Vec3) -> Vec3)
      requires NoUnderflow(axiom, |positionStack|)
      modifies this`positions, this`positionStack
      ensures var q := Walk(Pen(origin, Vec3(0, 0, 1), old(positionStack), old(positions) + [origin]), axiom, alpha, rotate);
              positions == q.points && positionStack == q.stack
    {
      positions := positions + [origin];
      var nextPosition := origin;
      var nextVector := Vec3(0, 0, 1);
      ghost var final := Walk(Pen(origin, nextVector, positionStack, positions), axiom, alpha, rotate);
      for i := 0 to |axiom|
        invariant NoUnderflow(axiom[i..], |positionStack|)
        invariant Walk(Pen(nextPosition, nextVector, positionStack, positions), axiom[i..], alpha, rotate) == final
      {
        assert axiom[i..][0] == axiom[i] && axiom[i..][1..] == axiom[i + 1..];
        match axiom[i]
        case 'F' =>
          nextPosition := Add(nextPosition, nextVector);
          positions := positions + [nextPosition];
        case '+' =>
          nextVector := rotate(Z, alpha, nextVector);
        case '-' =>
          nextVector := rotate(Z, -alpha, nextVector);
        case '&' =>
          nextVector := rotate(Y, -alpha, nextVector);
        case '^' =>
          nextVector := rotate(Y, alpha, nextVector);
        case '<' =>
          nextVector := rotate(X, -alpha, nextVector);
        case '>' =>
          nextVector := rotate(X, alpha, nextVector);
        case '|' =>
        case '[' =>
          positionStack := positionStack + [nextPosition];
        case ']' =>
          nextPosition := positionStack[|positionStack| - 1];
          positionStack := positionStack[..|positionStack| - 1];
        case _ =>
      }
      assert axiom[|axiom|..] == [];
    }
  }

  /**
   * computeAxiom adds 1 + #'F' points to `positions`, never changes the ones
   * already there, and leaves the stack #'[' - #']' entries deeper.
   */
  lemma ComputeAxiomCounts(stack: seq<Vec3>, positions: seq<Vec3>, axiom: string, origin: Vec3,
                           alpha: real, rotate: (Axis, real, Vec3) -> Vec3)
    requires NoUnderflow(axiom, |stack|)
    ensures var q := Walk(Pen(origin, Vec3(0, 0, 1), stack, positions + [origin]), axiom, alpha, rotate);
            |q.points| == |positions| + 1 + CountChar(axiom, 'F')
            && q.points[..|positions| + 1] == positions + [origin]
            && |q.stack| == |stack| + CountChar(axiom, '[') - CountChar(axiom, ']')
  {
    var p := Pen(origin, Vec3(0, 0, 1), stack, positions + [origin]);
    WalkPoints(p, axiom, alpha, rotate);
    WalkDepth(p, axiom, alpha, rotate);
  }

  lemma KeyOrderExample()
    ensures Insert(Insert([], ParseRow("X=Y")), ParseRow("F=FX")) == [Rule("F", "FX"), Rule("X", "Y")]
  {
    ParsePlainRows();
    assert Insert([], Rule("X", "Y")) == [Rule("X", "Y")];
    assert Below("F", "X");
  }

  /**
   * The rule table decides the pass order, not the order the rows were
   * added: after "X=Y" and then "F=FX" the F rule still runs first, so one
   * pass turns "F" into "FY".
   */
  method CascadeInKeyOrder() returns (result: string)
    ensures result == "FY"
  {
    var t := new Tortoise();
    t.AddRule("X=Y");
    t.AddRule("F=FX");
    KeyOrderExample();
    result := t.GenerateAxiom("F", 1);
    Cascade();
  }
}
