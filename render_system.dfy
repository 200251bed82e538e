/**
 * OP_Render_system, the operator of the Blender add-on that runs the whole
 * pipeline: it fills the module-level `rules` dict from the rule rows,
 * expands the enabled axioms into the module-level `axioms` list, and renders
 * what that list holds.
 */
module RenderSystem {
  import opened Wrappers
  import opened Strings
  import opened Rewriting
  import opened Geometry
  import opened PyRules
  import opened AnchorTurtle

  /** An axiom row of the UI. */
  datatype AxiomRow = AxiomRow(name: string, expression: string, enabled: bool, iterations: int,
                               alpha: real, position: Vec3, step: int)

  /** Why a run stopped early: the exception execute lets escape. */
  datatype RunError =
    | MalformedRule(row: nat)                   // ValueError from unpacking a rule row
    | NoSuchAxiom(index: nat)                   // IndexError from axiom_collection[index]
    | UnnamedAxiom(index: nat)                  // AttributeError from reading axiom.index for an empty name
    | EmptyBranchStack(axiom: nat, offset: nat) // IndexError from popping an empty state_stack

  /** The index of the last enabled axiom row, if any. */
  function LastEnabled(rows: seq<AxiomRow>): (k: Option<nat>)
    ensures k.Some? ==> k.value < |rows| && rows[k.value].enabled
    ensures k.Some? ==> forall j :: k.value < j < |rows| ==> !rows[j].enabled
    ensures k.None? ==> forall j :: 0 <= j < |rows| ==> !rows[j].enabled
  {
    if rows == [] then None
    else if rows[|rows| - 1].enabled then Some(|rows| - 1)
    else LastEnabled(rows[..|rows| - 1])
  }

  /**
   * The `axioms` list after iterate: every enabled row's expansion replaces
   * the list, so only the last one remains; with no enabled row the list
   * keeps what it held before.
   */
  function Iterated(previous: seq<string>, rows: seq<AxiomRow>, items: seq<Rule>): seq<string> {
    match LastEnabled(rows)
    case None => previous
    case Some(k) => [PyExpand(rows[k].expression, items, rows[k].iterations)]
  }

  /**
   * The rendering loop of execute from `index` on: the i-th expanded
   * expression is drawn with the parameters of the i-th axiom row, and an
   * exception ends the run.  An enabled row with an empty name stops the run
   * before anything of it is drawn: the fallback name reads a field the row
   * does not have.
   */
  function RenderFrom(expanded: seq<string>, rows: seq<AxiomRow>, rotate: (Axis, real, Vec3) -> Vec3,
                      index: nat): (seq<seq<Vertex>>, Option<RunError>)
    decreases |expanded| - index
  {
    if index >= |expanded| then ([], None)
    else if index >= |rows| then ([], Some(NoSuchAxiom(index)))
    else if !rows[index].enabled then RenderFrom(expanded, rows, rotate, index + 1)
    else
      var row := rows[index];
      if row.name == [] then ([], Some(UnnamedAxiom(index)))
      else
        var o := Render(expanded[index], row.position, row.step, row.alpha, rotate);
        if o.failedAt.Some? then ([o.turtle.mesh], Some(EmptyBranchStack(index, o.failedAt.value)))
        else
          var rest := RenderFrom(expanded, rows, rotate, index + 1);
          ([o.turtle.mesh] + rest.0, rest.1)
  }

  /**
   * The one surviving expansion is drawn with the parameters of the FIRST
   * axiom row, whichever row it came from, and only if that row is enabled
   * and named.
   */
  lemma RendersWithFirstRow(expression: string, rows: seq<AxiomRow>, rotate: (Axis, real, Vec3) -> Vec3)
    ensures |rows| == 0 ==> RenderFrom([expression], rows, rotate, 0) == ([], Some(NoSuchAxiom(0)))
    ensures |rows| > 0 && !rows[0].enabled ==> RenderFrom([expression], rows, rotate, 0) == ([], None)
    ensures |rows| > 0 && rows[0].enabled && rows[0].name == [] ==>
              RenderFrom([expression], rows, rotate, 0) == ([], Some(UnnamedAxiom(0)))
    ensures |rows| > 0 && rows[0].enabled && rows[0].name != [] ==>
              var o := Render(expression, rows[0].position, rows[0].step, rows[0].alpha, rotate);
              RenderFrom([expression], rows, rotate, 0)
                == ([o.turtle.mesh], if o.failedAt.Some? then Some(EmptyBranchStack(0, o.failedAt.value)) else None)
  {
    assert RenderFrom([expression], rows, rotate, 1) == ([], None);
    if |rows| > 0 && rows[0].enabled && rows[0].name != [] {
      var o := Render(expression, rows[0].position, rows[0].step, rows[0].alpha, rotate);
      assert [o.turtle.mesh] + [] == [o.turtle.mesh];
    }
  }

  class RenderSystem {
    /** The module-level `rules` dict. */
    var rules: Dict
    /** The module-level `axioms` list. */
    var axioms: seq<string>

    ghost predicate Valid()
      reads this
    {
      rules.Valid() && |axioms| <= 1
    }

    constructor ()
      ensures Valid() && rules == EmptyDict && axioms == []
    {
      rules := EmptyDict;
      axioms := [];
    }

    /**
     * parse_rules: empties the dict, then stores every enabled row in order.
     * A row that does not split into exactly two parts on '=' raises
     * ValueError (returned here as its index); the dict then holds the rows
     * before it.
     */
    method ParseRules(rulesList: seq<RuleRow>) returns (error: Option<nat>)
      requires Valid()
      modifies this`rules
      ensures Valid()
      ensures var k := FirstMalformed(rulesList);
              && (error == if k < |rulesList| then Some(k) else None)
              && rules == Table(rulesList[..k])
    {
      rules := EmptyDict;
      for index := 0 to |rulesList|
        invariant forall j :: 0 <= j < index ==> WellFormed(rulesList[j])
        invariant rules == Table(rulesList[..index])
      {
        var value := rulesList[index];
        assert rulesList[..index + 1][..index] == rulesList[..index];
        if !value.enabled {
          continue;
        }
        var parts := Split(value.expression, '=');
        if |parts| != 2 {
          return Some(index);
        }
        rules := Put(rules, parts[0], parts[1]);
      }
      assert rulesList[..|rulesList|] == rulesList;
      return None;
    }

    /**
     * iterate_axiom: empties `axioms`, runs `iterations` passes (none when
     * it is not positive), each applying every rule in dict order with
     * str.replace, and appends the result.
     */
    method IterateAxiom(axiom: string, iterations: int)
      requires Valid()
      modifies this`axioms
      ensures Valid()
      ensures axioms == [PyExpand(axiom, Items(rules), iterations)]
    {
      axioms := [];
      var items := Items(rules);
      var current := axiom;
      var i := 0;
      while i < iterations
        invariant 0 <= i && (iterations > 0 ==> i <= iterations)
        invariant PyExpand(current, items, iterations - i) == PyExpand(axiom, items, iterations)
      {
        var k := 0;
        ghost var start := current;
        while k < |rules.keys|
          invariant k <= |rules.keys|
          invariant PyPass(current, items[k..]) == PyPass(start, items)
        {
          var key := rules.keys[k];
          assert items[k..][0] == Rule(key, rules.values[key]) && items[k..][1..] == items[k + 1..];
          current := PyReplace(current, key, rules.values[key]);
          k := k + 1;
        }
        assert items[|items|..] == [];
        i := i + 1;
      }
      axioms := axioms + [current];
    }

    /** iterate: expands every enabled axiom row in turn; only the last expansion is kept. */
    method Iterate(axiomRows: seq<AxiomRow>)
      requires Valid()
      modifies this`axioms
      ensures Valid()
      ensures axioms == Iterated(old(axioms), axiomRows, Items(rules))
    {
      for index := 0 to |axiomRows|
        invariant Valid()
        invariant axioms == Iterated(old(axioms), axiomRows[..index], Items(rules))
      {
        assert axiomRows[..index + 1][..index] == axiomRows[..index];
        var value := axiomRows[index];
        if !value.enabled {
          continue;
        }
        IterateAxiom(value.expression, value.iterations);
      }
      assert axiomRows[..|axiomRows|] == axiomRows;
    }

    /**
     * render_axiom: creates the object's one point at the row's position,
     * then reads the expression: 'F' extrudes by `vec` from the anchor
     * vertex, the rotation characters turn `vec` by the row's angle about a
     * global axis, '[' saves the last vertex's position and ']' pops the
     * saved position into the sticky anchor `source`.  Popping an empty
     * stack raises IndexError, reported with its offset; the points made
     * until then stay in the scene.  A row with an empty name raises
     * AttributeError before anything is created (None here): the fallback
     * name reads `axiom.index`, which an axiom row does not have.
     */
    method RenderAxiom(expression: string, axiom: AxiomRow, rotate: (Axis, real, Vec3) -> Vec3)
      returns (outcome: Option<Outcome>)
      ensures axiom.name == [] <==> outcome.None?
      ensures outcome.Some? ==> outcome.value == Render(expression, axiom.position, axiom.step, axiom.alpha, rotate)
    {
      if axiom.name == [] {
        return None;
      }
      var vec := Vec3(axiom.step, 0, 0);
      var stateStack: seq<Option<Vec3>> := [];
      var source: Option<Vec3> := None;
      var mesh := [Vertex(axiom.position, None)];
      for i := 0 to |expression|
        invariant Run(Turtle(vec, stateStack, source, mesh), expression, i, axiom.alpha, rotate)
                  == Render(expression, axiom.position, axiom.step, axiom.alpha, rotate)
      {
        var ch := expression[i];
        if ch == 'F' {
          mesh := ExtrudeObject(mesh, vec, source);
        }
        if ch == '+' {
          vec := rotate(Z, axiom.alpha, vec);
        }
        if ch == '-' {
          vec := rotate(Z, -axiom.alpha, vec);
        }
        if ch == '^' {
          vec := rotate(Y, axiom.alpha, vec);
        }
        if ch == '&' {
          vec := rotate(Y, -axiom.alpha, vec);
        }
        if ch == '>' {
          vec := rotate(X, axiom.alpha, vec);
        }
        if ch == '<' {
          vec := rotate(X, -axiom.alpha, vec);
        }
        if ch == '[' {
          stateStack := stateStack + [LastExtrude(mesh)];
        }
        if ch == ']' {
          if stateStack == [] {
            return Some(Outcome(Turtle(vec, stateStack, source, mesh), Some(i)));
          }
          source := stateStack[|stateStack| - 1];
          stateStack := stateStack[..|stateStack| - 1];
        }
      }
      outcome := Some(Outcome(Turtle(vec, stateStack, source, mesh), None));
    }

    /**
     * execute: parses the rules, expands the axioms, then walks the
     * `axioms` list, pairing its i-th entry with the i-th axiom row and
     * rendering it when that row is enabled.  Returns the meshes rendered and
     * the exception that ended the run early, if any.
     */
    method Execute(ruleRows: seq<RuleRow>, axiomRows: seq<AxiomRow>, rotate: (Axis, real, Vec3) -> Vec3)
      returns (meshes: seq<seq<Vertex>>, error: Option<RunError>)
      requires Valid()
      modifies this`rules, this`axioms
      ensures Valid()
      ensures rules == Table(ruleRows[..FirstMalformed(ruleRows)])
      ensures FirstMalformed(ruleRows) < |ruleRows| ==>
                && meshes == [] && error == Some(MalformedRule(FirstMalformed(ruleRows)))
                && axioms == old(axioms)
      ensures FirstMalformed(ruleRows) == |ruleRows| ==>
                && axioms == Iterated(old(axioms), axiomRows, Items(rules))
                && (meshes, error) == RenderFrom(axioms, axiomRows, rotate, 0)
    {
      var parseError := ParseRules(ruleRows);
      if parseError.Some? {
        return [], Some(MalformedRule(parseError.value));
      }
      Iterate(axiomRows);
      meshes, error := [], None;
      assert meshes + RenderFrom(axioms, axiomRows, rotate, 0).0 == RenderFrom(axioms, axiomRows, rotate, 0).0;
      for index := 0 to |axioms|
        modifies {}
        invariant var rest := RenderFrom(axioms, axiomRows, rotate, index);
                  RenderFrom(axioms, axiomRows, rotate, 0) == (meshes + rest.0, rest.1)
        invariant error == None
      {
        if index >= |axiomRows| {
          error := Some(NoSuchAxiom(index));
          return;
        }
        var axiomProp := axiomRows[index];
        if !axiomProp.enabled {
          continue;
        }
        var rendered := RenderAxiom(axioms[index], axiomProp, rotate);
        if rendered.None? {
          assert meshes + [] == meshes;
          error := Some(UnnamedAxiom(index));
          return;
        }
        var outcome := rendered.value;
        ghost var rest := RenderFrom(axioms, axiomRows, rotate, index + 1);
        assert meshes + ([outcome.turtle.mesh] + rest.0) == (meshes + [outcome.turtle.mesh]) + rest.0;
        meshes := meshes + [outcome.turtle.mesh];
        if outcome.failedAt.Some? {
          error := Some(EmptyBranchStack(index, outcome.failedAt.value));
          return;
        }
      }
      assert meshes + [] == meshes;
    }
  }
}
