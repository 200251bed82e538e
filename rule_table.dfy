/**
 * The C++ rule table, std::map<const std::string, const std::string>: entries
 * kept in ascending key order, at most one entry per name, and the string
 * arithmetic addRule uses to cut a "name=body" row.
 */
module RuleTable {
  import opened Wrappers
  import opened Strings
  import opened Rewriting

  /** std::string::npos on a 64-bit target. */
  const NPOS: nat := 0xFFFF_FFFF_FFFF_FFFF
  /** Values of `unsigned int` wrap modulo 2^32. */
  const UINT_RANGE: nat := 0x1_0000_0000
  /** Values of `std::size_t` wrap modulo 2^64. */
  const SIZE_RANGE: nat := 0x1_0000_0000_0000_0000

  /** std::string's operator<: lexicographic by character, a proper prefix first. */
  predicate Below(a: string, b: string)
    decreases |a|
  {
    if b == [] then false
    else if a == [] then true
    else a[0] < b[0] || (a[0] == b[0] && Below(a[1..], b[1..]))
  }

  lemma {:induction false} BelowIrreflexive(a: string)
    ensures !Below(a, a)
  {
    if a != [] {
      BelowIrreflexive(a[1..]);
    }
  }

  lemma {:induction false} BelowTransitive(a: string, b: string, c: string)
    requires Below(a, b) && Below(b, c)
    ensures Below(a, c)
    decreases |a|
  {
    if a != [] && a[0] == b[0] && b[0] == c[0] {
      if Below(a[1..], b[1..]) && Below(b[1..], c[1..]) {
        BelowTransitive(a[1..], b[1..], c[1..]);
      }
    }
  }

  lemma {:induction false} BelowTotal(a: string, b: string)
    requires a != b
    ensures Below(a, b) || Below(b, a)
    decreases |a|
  {
    if a != [] && b != [] && a[0] == b[0] {
      assert a == [a[0]] + a[1..] && b == [b[0]] + b[1..];
      BelowTotal(a[1..], b[1..]);
    }
  }

  /** The entries are in strictly ascending key order, as a std::map iterates them. */
  ghost predicate Ascending(entries: seq<Rule>) {
    forall i, j :: 0 <= i < j < |entries| ==> Below(entries[i].name, entries[j].name)
  }

  /** The mapping the entries stand for. */
  function ToMap(entries: seq<Rule>): map<string, string> {
    if entries == [] then map[]
    else ToMap(entries[1..])[entries[0].name := entries[0].body]
  }

  lemma {:induction false} ToMapKeys(entries: seq<Rule>, k: string)
    ensures k in ToMap(entries) <==> exists i :: 0 <= i < |entries| && entries[i].name == k
  {
    if entries != [] {
      ToMapKeys(entries[1..], k);
      if k in ToMap(entries[1..]) {
        var i :| 0 <= i < |entries[1..]| && entries[1..][i].name == k;
        assert entries[i + 1].name == k;
      }
      if exists i :: 0 <= i < |entries| && entries[i].name == k {
        var i :| 0 <= i < |entries| && entries[i].name == k;
        if i > 0 {
          assert entries[1..][i - 1].name == k;
        }
      }
    }
  }

  /** No entry of an ascending table after the first carries the first entry's name. */
  lemma FirstNameNotInRest(entries: seq<Rule>, k: string)
    requires Ascending(entries) && entries != []
    requires k == entries[0].name || Below(k, entries[0].name)
    ensures k !in ToMap(entries[1..])
  {
    ToMapKeys(entries[1..], k);
    if k in ToMap(entries[1..]) {
      var i :| 0 <= i < |entries[1..]| && entries[1..][i].name == k;
      assert Below(entries[0].name, entries[i + 1].name);
      if k != entries[0].name {
        BelowTransitive(k, entries[0].name, k);
      }
      BelowIrreflexive(k);
    }
  }

  /**
   * std::map::insert: adds the entry in key order when the name is new and
   * leaves the table untouched when the name is already present.
   */
  function Insert(entries: seq<Rule>, r: Rule): (e: seq<Rule>)
    requires Ascending(entries)
    ensures Ascending(e)
    ensures forall i :: 0 <= i < |e| ==> e[i] in entries || e[i] == r
    ensures ToMap(e) == if r.name in ToMap(entries) then ToMap(entries)
                        else ToMap(entries)[r.name := r.body]
  {
    if entries == [] then [r]
    else if entries[0].name == r.name then entries
    else if Below(r.name, entries[0].name) then
      FirstNameNotInRest(entries, r.name);
      assert forall i :: 1 <= i < |entries| ==> Below(r.name, entries[i].name) by {
        forall i | 1 <= i < |entries| ensures Below(r.name, entries[i].name) {
          BelowTransitive(r.name, entries[0].name, entries[i].name);
        }
      }
      [r] + entries
    else
      BelowTotal(r.name, entries[0].name);
      var rest := Insert(entries[1..], r);
      InsertKeepsFirst(entries, r, rest);
      BelowIrreflexive(r.name);
      InsertKeepsFirstMapping(entries, r, rest);
      [entries[0]] + rest
  }

  /** Every entry after the first of an ascending table has a greater name. */
  lemma AboveFirst(entries: seq<Rule>, x: Rule)
    requires Ascending(entries) && entries != [] && x in entries[1..]
    ensures Below(entries[0].name, x.name)
  {
    var j :| 0 <= j < |entries[1..]| && entries[1..][j] == x;
    assert entries[j + 1] == x;
  }

  /** An entry below every entry of an ascending table can go in front of it. */
  lemma PrependAscending(first: Rule, rest: seq<Rule>)
    requires Ascending(rest)
    requires forall i :: 0 <= i < |rest| ==> Below(first.name, rest[i].name)
    ensures Ascending([first] + rest)
  {
    var e := [first] + rest;
    forall i, j | 0 <= i < j < |e| ensures Below(e[i].name, e[j].name) {
      assert e[j] == rest[j - 1];
      if i > 0 {
        assert e[i] == rest[i - 1];
      }
    }
  }

  /** Inserting behind the first entry keeps that entry first. */
  lemma InsertKeepsFirst(entries: seq<Rule>, r: Rule, rest: seq<Rule>)
    requires Ascending(entries) && entries != [] && Below(entries[0].name, r.name)
    requires Ascending(rest)
    requires forall i :: 0 <= i < |rest| ==> rest[i] in entries[1..] || rest[i] == r
    ensures Ascending([entries[0]] + rest)
  {
    forall i | 0 <= i < |rest| ensures Below(entries[0].name, rest[i].name) {
      if rest[i] != r {
        AboveFirst(entries, rest[i]);
      }
    }
    PrependAscending(entries[0], rest);
  }

  /** Erasing behind the first entry keeps that entry first. */
  lemma EraseKeepsFirst(entries: seq<Rule>, rest: seq<Rule>)
    requires Ascending(entries) && entries != []
    requires Ascending(rest)
    requires forall i :: 0 <= i < |rest| ==> rest[i] in entries[1..]
    ensures Ascending([entries[0]] + rest)
  {
    forall i | 0 <= i < |rest| ensures Below(entries[0].name, rest[i].name) {
      AboveFirst(entries, rest[i]);
    }
    PrependAscending(entries[0], rest);
  }

  /** The mapping after erasing a name other than the first entry's. */
  lemma EraseKeepsFirstMapping(entries: seq<Rule>, name: string, rest: seq<Rule>)
    requires entries != [] && entries[0].name != name
    requires ToMap(rest) == ToMap(entries[1..]) - {name}
    ensures ToMap([entries[0]] + rest) == ToMap(entries) - {name}
  {
    var e := [entries[0]] + rest;
    assert e[1..] == rest;
    var tail, first := ToMap(entries[1..]), entries[0];
    assert ToMap(entries) == tail[first.name := first.body];
    assert (tail - {name})[first.name := first.body] == tail[first.name := first.body] - {name};
  }

  /** The mapping after inserting behind the first entry. */
  lemma InsertKeepsFirstMapping(entries: seq<Rule>, r: Rule, rest: seq<Rule>)
    requires entries != [] && entries[0].name != r.name
    requires ToMap(rest) == if r.name in ToMap(entries[1..]) then ToMap(entries[1..])
                            else ToMap(entries[1..])[r.name := r.body]
    ensures ToMap([entries[0]] + rest) == if r.name in ToMap(entries) then ToMap(entries)
                                          else ToMap(entries)[r.name := r.body]
  {
    var e := [entries[0]] + rest;
    assert e[1..] == rest;
    var tail, first := ToMap(entries[1..]), entries[0];
    assert ToMap(entries) == tail[first.name := first.body];
    assert ToMap(e) == ToMap(rest)[first.name := first.body];
    if r.name !in tail {
      assert tail[r.name := r.body][first.name := first.body]
          == tail[first.name := first.body][r.name := r.body];
    }
  }

  /** std::map::erase(name): removes exactly the entry named `name`, if there is one. */
  function Erase(entries: seq<Rule>, name: string): (e: seq<Rule>)
    requires Ascending(entries)
    ensures Ascending(e)
    ensures forall i :: 0 <= i < |e| ==> e[i] in entries
    ensures ToMap(e) == ToMap(entries) - {name}
  {
    if entries == [] then []
    else if entries[0].name == name then
      FirstNameNotInRest(entries, name);
      entries[1..]
    else
      var rest := Erase(entries[1..], name);
      EraseKeepsFirst(entries, rest);
      EraseKeepsFirstMapping(entries, name, rest);
      [entries[0]] + rest
  }

  /** std::string::substr(pos, count) for a `pos` within the string. */
  function SubStr(s: string, pos: nat, count: nat): (r: string)
    requires pos <= |s|
  {
    s[pos..pos + if count < |s| - pos then count else |s| - pos]
  }

  /**
   * Tortoise::addRule's cut of a row into name and body.  The position of the
   * first '=' (npos when there is none) is truncated to `unsigned int`; the
   * name is the text before it and the body starts one past it, the increment
   * being done in `unsigned int` as well.
   */
  function ParseRow(expression: string): Rule {
    var found := FindChar(expression, '=', 0);
    var delimiterIndex := (if found.Some? then found.value else NPOS) % UINT_RANGE;
    var bodyStart := (delimiterIndex + 1) % UINT_RANGE;
    var sizeMinusOne := (|expression| - 1) % SIZE_RANGE;
    Rule(SubStr(expression, 0, delimiterIndex), SubStr(expression, bodyStart, sizeMinusOne))
  }

  /** Indices of a row shorter than 2^32 survive the unsigned-int casts. */
  lemma SmallIndex(d: nat, size: nat)
    requires d < size < UINT_RANGE
    ensures d % UINT_RANGE == d && (d + 1) % UINT_RANGE == d + 1
    ensures (size - 1) % SIZE_RANGE == size - 1
  {
  }

  /**
   * With '=' in the row, the row is split at its first '=': the name is free
   * of '=' and the body is everything after it, '=' included.
   */
  lemma SplitsAtFirstDelimiter(expression: string)
    requires |expression| < UINT_RANGE
    requires '=' in expression
    ensures var r := ParseRow(expression);
            expression == r.name + "=" + r.body && '=' !in r.name
  {
    var d := FindChar(expression, '=', 0).value;
    SmallIndex(d, |expression|);
    assert SubStr(expression, 0, d) == expression[..d];
    assert SubStr(expression, d + 1, |expression| - 1) == expression[d + 1..];
    assert expression == expression[..d] + [expression[d]] + expression[d + 1..];
  }

  /**
   * A row without '=' is not rejected: the npos index wraps to 0 after the
   * increment, so the name is the whole row and the body is the row without
   * its last character.
   */
  lemma NoDelimiterKeepsWholeRow(expression: string)
    requires |expression| < UINT_RANGE
    requires '=' !in expression
    ensures var r := ParseRow(expression);
            r.name == expression
            && r.body == if expression == [] then [] else expression[..|expression| - 1]
  {
  }

  /** Two plain rows, cut as expected. */
  lemma ParsePlainRows()
    ensures ParseRow("X=Y") == Rule("X", "Y")
    ensures ParseRow("F=FX") == Rule("F", "FX")
  {
    assert FindChar("X=Y", '=', 0) == Some(1);
    assert "X=Y"[0..1] == "X" && "X=Y"[2..3] == "Y";
    assert FindChar("F=FX", '=', 0) == Some(1);
    assert "F=FX"[0..1] == "F" && "F=FX"[2..4] == "FX";
  }

  /** The row "=X" stores a rule with an empty name, which rewriting cannot use. */
  lemma EmptyNameFromLeadingDelimiter()
    ensures ParseRow("=X") == Rule("", "X")
  {
    assert FindChar("=X", '=', 0) == Some(0);
  }
}
