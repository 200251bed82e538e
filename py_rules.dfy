/**
 * The Python add-on's rule handling: the module-level `rules` dict (insertion
 * ordered, a repeated name overwrites the value in place), the parsing of
 * "name=body" rows with str.split, and expansion with str.replace.
 */
module PyRules {
  import opened Strings
  import opened Rewriting

  /** A rule row of the UI: its raw text and whether it is enabled. */
  datatype RuleRow = RuleRow(expression: string, enabled: bool)

  /** A Python dict from names to bodies: its keys in insertion order and the mapping. */
  datatype Dict = Dict(keys: seq<string>, values: map<string, string>) {
    ghost predicate Valid() {
      && (forall i, j :: 0 <= i < j < |keys| ==> keys[i] != keys[j])
      && (forall k :: k in values <==> k in keys)
    }
  }

  const EmptyDict: Dict := Dict([], map[])

  /**
   * `d[k] = v`: a new key goes to the end of the iteration order, an existing
   * key keeps its place and gets the new value.
   */
  function Put(d: Dict, k: string, v: string): (d': Dict)
    requires d.Valid()
    ensures d'.Valid()
    ensures d'.values == d.values[k := v]
    ensures k in d.values ==> d'.keys == d.keys
    ensures k !in d.values ==> d'.keys == d.keys + [k]
  {
    if k in d.values then Dict(d.keys, d.values[k := v])
    else Dict(d.keys + [k], d.values[k := v])
  }

  /** The rules as `for key in rules.keys(): rules[key]` visits them. */
  function Items(d: Dict): (items: seq<Rule>)
    requires d.Valid()
    ensures |items| == |d.keys|
    ensures forall i :: 0 <= i < |items| ==> items[i] == Rule(d.keys[i], d.values[d.keys[i]])
  {
    seq(|d.keys|, i requires 0 <= i < |d.keys| => Rule(d.keys[i], d.values[d.keys[i]]))
  }

  /** `name, exp = row.split("=")` succeeds: a disabled row, or exactly one '='. */
  predicate WellFormed(row: RuleRow) {
    !row.enabled || |Split(row.expression, '=')| == 2
  }

  /** An enabled row unpacks exactly when it holds exactly one '='. */
  lemma WellFormedIffOneDelimiter(row: RuleRow)
    requires row.enabled
    ensures WellFormed(row) <==> CountChar(row.expression, '=') == 1
  {
  }

  /** A row "name=body" with no '=' in either part unpacks to that name and body. */
  lemma RowRoundTrip(name: string, body: string)
    requires '=' !in name && '=' !in body
    ensures Split(name + "=" + body, '=') == [name, body]
  {
    SplitJoin([name, body], '=');
    assert [name, body][1..] == [body];
  }

  /** The index of the first enabled row that does not unpack, or |rows| when every row does. */
  function FirstMalformed(rows: seq<RuleRow>): (k: nat)
    ensures k <= |rows|
    ensures forall i :: 0 <= i < k ==> WellFormed(rows[i])
    ensures k < |rows| ==> !WellFormed(rows[k])
  {
    if rows == [] then 0
    else if !WellFormed(rows[0]) then 0
    else 1 + FirstMalformed(rows[1..])
  }

  /** The name of a well-formed enabled row. */
  function RowName(row: RuleRow): string
    requires row.enabled && WellFormed(row)
  {
    Split(row.expression, '=')[0]
  }

  /** The body of a well-formed enabled row. */
  function RowBody(row: RuleRow): string
    requires row.enabled && WellFormed(row)
  {
    Split(row.expression, '=')[1]
  }

  /** The dict parse_rules builds from rows that all unpack: the enabled ones, in order. */
  function Table(rows: seq<RuleRow>): (d: Dict)
    requires forall i :: 0 <= i < |rows| ==> WellFormed(rows[i])
    ensures d.Valid()
    decreases |rows|
  {
    if rows == [] then EmptyDict
    else
      var last := rows[|rows| - 1];
      var d := Table(rows[..|rows| - 1]);
      if !last.enabled then d else Put(d, RowName(last), RowBody(last))
  }

  /**
   * Last wins: the value stored for a name is the body of the last enabled
   * row with that name.
   */
  lemma {:induction false} TableLastWins(rows: seq<RuleRow>, i: nat)
    requires forall j :: 0 <= j < |rows| ==> WellFormed(rows[j])
    requires i < |rows| && rows[i].enabled
    requires forall j :: i < j < |rows| && rows[j].enabled ==> RowName(rows[j]) != RowName(rows[i])
    ensures RowName(rows[i]) in Table(rows).values
    ensures Table(rows).values[RowName(rows[i])] == RowBody(rows[i])
    decreases |rows|
  {
    var init := rows[..|rows| - 1];
    if i < |rows| - 1 {
      assert forall j :: 0 <= j < |init| ==> init[j] == rows[j];
      TableLastWins(init, i);
    }
  }

  /** A name is in the dict exactly when some enabled row carries it. */
  lemma {:induction false} TableKeys(rows: seq<RuleRow>, k: string)
    requires forall j :: 0 <= j < |rows| ==> WellFormed(rows[j])
    ensures k in Table(rows).values <==> exists j :: 0 <= j < |rows| && rows[j].enabled && RowName(rows[j]) == k
    decreases |rows|
  {
    if rows != [] {
      var init := rows[..|rows| - 1];
      assert forall j :: 0 <= j < |init| ==> init[j] == rows[j];
      TableKeys(init, k);
      if exists j :: 0 <= j < |rows| && rows[j].enabled && RowName(rows[j]) == k {
        var j :| 0 <= j < |rows| && rows[j].enabled && RowName(rows[j]) == k;
        if j < |rows| - 1 {
          assert init[j] == rows[j];
        }
      }
    }
  }

  /**
   * A name keeps the place of its first enabled row in the iteration order:
   * the keys of any prefix of the rows start the keys of all of them.
   */
  lemma {:induction false} TableKeepsOrder(rows: seq<RuleRow>, n: nat)
    requires forall j :: 0 <= j < |rows| ==> WellFormed(rows[j])
    requires n <= |rows|
    ensures var short := Table(rows[..n]).keys;
            |short| <= |Table(rows).keys| && Table(rows).keys[..|short|] == short
    decreases |rows|
  {
    if n < |rows| {
      var init := rows[..|rows| - 1];
      assert init[..n] == rows[..n];
      TableKeepsOrder(init, n);
    } else {
      assert rows[..n] == rows;
    }
  }

  /**
   * Python's s.replace(old, new) with an empty `old`: `new` (here `fill`) before every
   * character and at the end.
   */
  function InsertEverywhere(s: string, fill: string): (r: string)
    ensures |r| == |s| + (|s| + 1) * |fill|
  {
    if s == [] then fill else fill + [s[0]] + InsertEverywhere(s[1..], fill)
  }

  /** Where the i-th copy of a `width`-long fill starts in InsertEverywhere's result. */
  function Slot(i: nat, width: nat): (k: nat)
    ensures k == i * (width + 1)
  {
    if i == 0 then 0 else Slot(i - 1, width) + width + 1
  }

  /**
   * The fills InsertEverywhere places: the i-th block of `|fill|` characters
   * of the result, for i from 0 to |s|, is `fill`.
   */
  lemma {:induction false} InsertEverywhereFills(s: string, fill: string)
    ensures var r := InsertEverywhere(s, fill);
            forall i :: 0 <= i <= |s| ==>
              Slot(i, |fill|) + |fill| <= |r| && r[Slot(i, |fill|)..Slot(i, |fill|) + |fill|] == fill
    decreases |s|
  {
    var r := InsertEverywhere(s, fill);
    var w := |fill|;
    if s == [] {
      assert r == fill;
      forall i | 0 <= i <= |s|
        ensures Slot(i, w) + w <= |r| && r[Slot(i, w)..Slot(i, w) + w] == fill
      {
        assert i == 0;
      }
    } else {
      var rest := InsertEverywhere(s[1..], fill);
      InsertEverywhereFills(s[1..], fill);
      assert r == fill + [s[0]] + rest;
      forall i | 0 <= i <= |s|
        ensures Slot(i, w) + w <= |r| && r[Slot(i, w)..Slot(i, w) + w] == fill
      {
        if i != 0 {
          var j := Slot(i - 1, w);
          assert Slot(i, w) == j + w + 1;
          assert r[j + w + 1..j + w + 1 + w] == rest[j..j + w];
        }
      }
    }
  }

  /**
   * The characters InsertEverywhere keeps: s[i] sits right after the i-th
   * fill, so skipping the fills gives `s` back.
   */
  lemma {:induction false} InsertEverywhereKeeps(s: string, fill: string)
    ensures var r := InsertEverywhere(s, fill);
            forall i :: 0 <= i < |s| ==> Slot(i, |fill|) + |fill| < |r| && r[Slot(i, |fill|) + |fill|] == s[i]
    decreases |s|
  {
    if s != [] {
      var r := InsertEverywhere(s, fill);
      var w := |fill|;
      var rest := InsertEverywhere(s[1..], fill);
      InsertEverywhereKeeps(s[1..], fill);
      assert r == fill + [s[0]] + rest;
      forall i | 0 <= i < |s|
        ensures Slot(i, w) + w < |r| && r[Slot(i, w) + w] == s[i]
      {
        if i != 0 {
          var j := Slot(i - 1, w);
          assert Slot(i, w) == j + w + 1;
          assert r[j + w + 1 + w] == rest[j + w];
        }
      }
    }
  }

  /** s.replace(name, body): every non-overlapping occurrence, left to right. */
  function PyReplace(s: string, name: string, body: string): string {
    if name == [] then InsertEverywhere(s, body) else ReplaceAll(s, name, body)
  }

  /** One pass of iterate_axiom: the rules in dict order, each on the result of the previous one. */
  function PyPass(s: string, items: seq<Rule>): string
    decreases |items|
  {
    if items == [] then s else PyPass(PyReplace(s, items[0].name, items[0].body), items[1..])
  }

  /** `for i in range(iterations)`: no pass at all when `iterations <= 0`. */
  function PyExpand(s: string, items: seq<Rule>, iterations: int): string
    decreases iterations
  {
    if iterations <= 0 then s else PyExpand(PyPass(s, items), items, iterations - 1)
  }

  /** Python's pass is the shared pass whenever no rule has an empty name. */
  lemma {:induction false} PyPassAgrees(s: string, items: seq<Rule>)
    requires NamesNonEmpty(items)
    ensures PyPass(s, items) == Pass(s, items)
    decreases |items|
  {
    if items != [] {
      PyPassAgrees(ReplaceAll(s, items[0].name, items[0].body), items[1..]);
    }
  }

  /** Python's expansion is the shared expansion whenever no rule has an empty name. */
  lemma {:induction false} PyExpandAgrees(s: string, items: seq<Rule>, iterations: nat)
    requires NamesNonEmpty(items)
    ensures PyExpand(s, items, iterations) == Expand(s, items, iterations)
    decreases iterations
  {
    if iterations > 0 {
      PyPassAgrees(s, items);
      PyExpandAgrees(Pass(s, items), items, iterations - 1);
    }
  }

  /** A non-positive iteration count leaves the expression as it is. */
  lemma PyExpandNonPositive(s: string, items: seq<Rule>, iterations: int)
    requires iterations <= 0
    ensures PyExpand(s, items, iterations) == s
  {
  }

  /** A dict of two different keys visits them in insertion order. */
  lemma ItemsOfTwo(n1: string, b1: string, n2: string, b2: string)
    requires n1 != n2
    ensures Dict([n1, n2], map[n1 := b1, n2 := b2]).Valid()
    ensures Items(Dict([n1, n2], map[n1 := b1, n2 := b2])) == [Rule(n1, b1), Rule(n2, b2)]
  {
    var items := Items(Dict([n1, n2], map[n1 := b1, n2 := b2]));
    assert items[0] == Rule(n1, b1) && items[1] == Rule(n2, b2);
  }

  /** One enabled row "name=body" gives the dict holding just that rule. */
  lemma OneRow(e1: string, n1: string, b1: string)
    requires e1 == n1 + "=" + b1 && '=' !in n1 && '=' !in b1
    ensures WellFormed(RuleRow(e1, true))
    ensures Table([RuleRow(e1, true)]) == Dict([n1], map[n1 := b1])
  {
    RowRoundTrip(n1, b1);
    var rows := [RuleRow(e1, true)];
    assert rows[..0] == [];
    assert [] + [n1] == [n1];
  }

  /** Two enabled rows with different names give a dict that visits them in row order. */
  lemma TwoRows(e1: string, n1: string, b1: string, e2: string, n2: string, b2: string)
    requires e1 == n1 + "=" + b1 && e2 == n2 + "=" + b2
    requires '=' !in n1 && '=' !in b1 && '=' !in n2 && '=' !in b2 && n1 != n2
    ensures WellFormed(RuleRow(e1, true)) && WellFormed(RuleRow(e2, true))
    ensures Items(Table([RuleRow(e1, true), RuleRow(e2, true)])) == [Rule(n1, b1), Rule(n2, b2)]
  {
    OneRow(e1, n1, b1);
    RowRoundTrip(n2, b2);
    var rows := [RuleRow(e1, true), RuleRow(e2, true)];
    assert rows[..1] == [RuleRow(e1, true)];
    var first := Dict([n1], map[n1 := b1]);
    assert Table(rows) == Put(first, n2, b2);
    assert first.keys + [n2] == [n1, n2];
    ItemsOfTwo(n1, b1, n2, b2);
  }

  /** One pass over the dict of two rows is the shared pass over their rules, in row order. */
  lemma PassOfTwoRows(s: string, e1: string, n1: string, b1: string, e2: string, n2: string, b2: string)
    requires e1 == n1 + "=" + b1 && e2 == n2 + "=" + b2
    requires '=' !in n1 && '=' !in b1 && '=' !in n2 && '=' !in b2 && n1 != n2
    requires n1 != [] && n2 != []
    ensures WellFormed(RuleRow(e1, true)) && WellFormed(RuleRow(e2, true))
    ensures PyPass(s, Items(Table([RuleRow(e1, true), RuleRow(e2, true)]))) == Pass(s, [Rule(n1, b1), Rule(n2, b2)])
  {
    TwoRows(e1, n1, b1, e2, n2, b2);
    PyPassAgrees(s, [Rule(n1, b1), Rule(n2, b2)]);
  }

  /**
   * Rows "F=FX" then "X=Y": the dict iterates F first, and one pass turns
   * "F" into "FY"; rows in the opposite order leave "FX".
   */
  lemma CascadeInDictOrder()
    ensures WellFormed(RuleRow("F=FX", true)) && WellFormed(RuleRow("X=Y", true))
    ensures PyPass("F", Items(Table([RuleRow("F=FX", true), RuleRow("X=Y", true)]))) == "FY"
    ensures PyPass("F", Items(Table([RuleRow("X=Y", true), RuleRow("F=FX", true)]))) == "FX"
  {
    assert "F=FX" == "F" + "=" + "FX" && "X=Y" == "X" + "=" + "Y";
    PassOfTwoRows("F", "F=FX", "F", "FX", "X=Y", "X", "Y");
    PassOfTwoRows("F", "X=Y", "X", "Y", "F=FX", "F", "FX");
    Cascade();
  }

  /** A rule with an empty name inserts its body around every character: "ab" becomes "XaXbX". */
  lemma EmptyNameExample()
    ensures PyReplace("ab", "", "X") == "XaXbX"
  {
    assert "ab"[1..] == "b" && "b"[1..] == [];
  }
}
