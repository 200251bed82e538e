/**
 * The grammar engine shared by both implementations: a rule rewrites every
 * occurrence of its name, left to right and without overlap, and a pass
 * applies the rules one after another to the same working string, so a later
 * rule sees what an earlier rule of the same pass produced.
 */
module Rewriting {
  import opened Wrappers
  import opened Strings

  /** One production: every occurrence of `name` becomes `body`. */
  datatype Rule = Rule(name: string, body: string)

  /**
   * Left-to-right, non-overlapping replacement of every occurrence of `name`
   * by `body`; text that a replacement inserts is never scanned again.
   */
  function ReplaceAll(s: string, name: string, body: string): string
    requires name != []
    decreases |s|
  {
    if |s| < |name| then s
    else if s[..|name|] == name then body + ReplaceAll(s[|name|..], name, body)
    else [s[0]] + ReplaceAll(s[1..], name, body)
  }

  /** Every rule of the table has a non-empty name. */
  predicate NamesNonEmpty(rules: seq<Rule>) {
    forall i :: 0 <= i < |rules| ==> rules[i].name != []
  }

  /** One pass: the rules in table order, each applied to the output of the previous one. */
  function Pass(s: string, rules: seq<Rule>): string
    requires NamesNonEmpty(rules)
    decreases |rules|
  {
    if rules == [] then s
    else Pass(ReplaceAll(s, rules[0].name, rules[0].body), rules[1..])
  }

  /** `n` passes, one after another. */
  function Expand(s: string, rules: seq<Rule>, n: nat): string
    requires NamesNonEmpty(rules)
    decreases n
  {
    if n == 0 then s else Expand(Pass(s, rules), rules, n - 1)
  }

  /** Number of occurrences ReplaceAll rewrites: non-overlapping, left to right. */
  function Matches(s: string, name: string): nat
    requires name != []
    decreases |s|
  {
    if |s| < |name| then 0
    else if s[..|name|] == name then 1 + Matches(s[|name|..], name)
    else Matches(s[1..], name)
  }

  /**
   * A prefix of `t` that holds no occurrence of `name` is copied unchanged,
   * and the replacement continues on the rest.
   */
  lemma {:induction false} ReplaceAllSkip(t: string, name: string, body: string, k: nat)
    requires name != [] && k <= |t|
    requires forall j :: 0 <= j < k ==> !Occurs(t, name, j)
    ensures ReplaceAll(t, name, body) == t[..k] + ReplaceAll(t[k..], name, body)
  {
    if k > 0 {
      assert !Occurs(t, name, 0);
      if |t| < |name| {
        assert t[k..] == [] || |t[k..]| < |name|;
        assert t[..k] + t[k..] == t;
      } else {
        assert t[..|name|] != name;
        forall j | 0 <= j < k - 1 ensures !Occurs(t[1..], name, j) {
          assert !Occurs(t, name, j + 1);
          if j + |name| <= |t[1..]| {
            assert t[1..][j..j + |name|] == t[j + 1..j + 1 + |name|];
          }
        }
        ReplaceAllSkip(t[1..], name, body, k - 1);
        assert t[1..][k - 1..] == t[k..];
        assert [t[0]] + t[1..][..k - 1] == t[..k];
      }
    }
  }

  lemma OccursShift(w: string, pat: string, pos: nat, j: nat)
    requires pos <= |w|
    ensures Occurs(w[pos..], pat, j) <==> Occurs(w, pat, pos + j)
  {
    if pos + j + |pat| <= |w| {
      assert w[pos..][j..j + |pat|] == w[pos + j..pos + j + |pat|];
    }
  }

  /**
   * Scanning from `pos` to the next occurrence `p` of `name`: the text before
   * `p` is copied, the occurrence becomes `body`, and the replacement resumes
   * after it.
   */
  lemma ReplaceAllAt(w: string, name: string, body: string, pos: nat, p: nat)
    requires name != [] && pos <= p && Occurs(w, name, p)
    requires forall j :: pos <= j < p ==> !Occurs(w, name, j)
    ensures ReplaceAll(w[pos..], name, body) == w[pos..p] + body + ReplaceAll(w[p + |name|..], name, body)
  {
    var t := w[pos..];
    forall j | 0 <= j < p - pos ensures !Occurs(t, name, j) {
      OccursShift(w, name, pos, j);
    }
    ReplaceAllSkip(t, name, body, p - pos);
    assert t[..p - pos] == w[pos..p];
    assert t[p - pos..] == w[p..];
    assert w[p..][..|name|] == name;
    assert w[p..][|name|..] == w[p + |name|..];
  }

  /** With no occurrence of `name` at or after `pos`, the rest is copied as it is. */
  lemma ReplaceAllNoMore(w: string, name: string, body: string, pos: nat)
    requires name != [] && pos <= |w|
    requires forall j :: pos <= j ==> !Occurs(w, name, j)
    ensures ReplaceAll(w[pos..], name, body) == w[pos..]
  {
    var t := w[pos..];
    forall j | 0 <= j < |t| ensures !Occurs(t, name, j) {
      OccursShift(w, name, pos, j);
    }
    ReplaceAllAbsent(t, name, body);
  }

  /**
   * One step of the find/replace scan: replacing the occurrence that find
   * reports and resuming after the inserted body keeps "done part + replaced
   * rest" the same, and leaves strictly less text to scan.
   */
  lemma ReplaceStep(w: string, name: string, body: string, pos: nat, p: nat)
    requires name != [] && pos <= |w| && Find(w, name, pos) == Some(p)
    ensures p + |name| <= |w|
    ensures var w' := w[..p] + body + w[p + |name|..];
            p + |body| <= |w'|
            && |w'| - (p + |body|) < |w| - pos
            && w'[..p + |body|] + ReplaceAll(w'[p + |body|..], name, body) == w[..pos] + ReplaceAll(w[pos..], name, body)
  {
    ReplaceAllAt(w, name, body, pos, p);
    Splice(w, body, pos, p, |name|, ReplaceAll(w[p + |name|..], name, body));
  }

  /**
   * Why the scan needs a non-empty name: with an empty name find reports the
   * resume position itself, and once the body is inserted there and the
   * cursor moved past it, find reports the new cursor again while the text
   * still to scan is exactly what it was, so the loop never reaches npos.
   */
  lemma EmptyNameNeverAdvances(w: string, body: string, pos: nat)
    requires pos <= |w|
    ensures Find(w, [], pos) == Some(pos)
    ensures var w' := w[..pos] + body + w[pos..];
            Find(w', [], pos + |body|) == Some(pos + |body|) && w'[pos + |body|..] == w[pos..]
  {
    assert Occurs(w, [], pos);
    var w' := w[..pos] + body + w[pos..];
    assert Occurs(w', [], pos + |body|);
  }

  /** The replacement of a string with no occurrence of `name` is the string itself. */
  lemma ReplaceAllAbsent(s: string, name: string, body: string)
    requires name != []
    requires forall j :: 0 <= j < |s| ==> !Occurs(s, name, j)
    ensures ReplaceAll(s, name, body) == s
  {
    ReplaceAllSkip(s, name, body, |s|);
    assert s[|s|..] == [];
  }

  /** Replacing a name by itself changes nothing. */
  lemma {:induction false} ReplaceAllSelf(s: string, name: string)
    requires name != []
    ensures ReplaceAll(s, name, name) == s
    decreases |s|
  {
    if |s| >= |name| {
      if s[..|name|] == name {
        ReplaceAllSelf(s[|name|..], name);
        assert s[..|name|] + s[|name|..] == s;
      } else {
        ReplaceAllSelf(s[1..], name);
        assert [s[0]] + s[1..] == s;
      }
    }
  }

  lemma OneMore(m: int, d: int)
    ensures (1 + m) * d == d + m * d
  {
  }

  /** Each rewritten occurrence trades |name| characters for |body| characters. */
  lemma {:induction false} ReplaceAllLength(s: string, name: string, body: string)
    requires name != []
    ensures |ReplaceAll(s, name, body)| == |s| + Matches(s, name) * (|body| - |name|)
    decreases |s|
  {
    if |s| >= |name| {
      if s[..|name|] == name {
        var rest := s[|name|..];
        ReplaceAllLength(rest, name, body);
        OneMore(Matches(rest, name), |body| - |name|);
      } else {
        ReplaceAllLength(s[1..], name, body);
      }
    }
  }

  /**
   * Text inserted by a rule is not rescanned by that rule: a rule whose body
   * contains its own name still terminates, one rewrite per original occurrence.
   */
  lemma InsertedTextNotRescanned()
    ensures ReplaceAll("aa", "a", "aa") == "aaaa"
    ensures Matches("aa", "a") == 2
  {
    assert "aa"[..1] == "a" && "aa"[1..] == "a" && "a"[1..] == [];
    assert "aa"[1..][..1] == "a";
  }

  /** Zero passes return the seed unchanged, whatever the rules. */
  lemma ExpandZero(s: string, rules: seq<Rule>)
    requires NamesNonEmpty(rules)
    ensures Expand(s, rules, 0) == s
  {
  }

  /** n + 1 passes are one more pass after n passes. */
  lemma {:induction false} ExpandSucc(s: string, rules: seq<Rule>, n: nat)
    requires NamesNonEmpty(rules)
    ensures Expand(s, rules, n + 1) == Pass(Expand(s, rules, n), rules)
    decreases n
  {
    if n > 0 {
      ExpandSucc(Pass(s, rules), rules, n - 1);
    }
  }

  /** A pass over a rule table splits at any point into two consecutive passes. */
  lemma {:induction false} PassAppend(s: string, a: seq<Rule>, b: seq<Rule>)
    requires NamesNonEmpty(a) && NamesNonEmpty(b)
    ensures NamesNonEmpty(a + b)
    ensures Pass(s, a + b) == Pass(Pass(s, a), b)
    decreases |a|
  {
    if a != [] {
      assert (a + b)[0] == a[0];
      assert (a + b)[1..] == a[1..] + b;
      PassAppend(ReplaceAll(s, a[0].name, a[0].body), a[1..], b);
    } else {
      assert a + b == b;
    }
  }

  /**
   * Cascading within one pass: with F=FX applied before X=Y, the X that the
   * first rule inserts is rewritten by the second in the same pass, so "F"
   * becomes "FY"; with the opposite order, the pass leaves "FX".
   */
  lemma Cascade()
    ensures Pass("F", [Rule("F", "FX"), Rule("X", "Y")]) == "FY"
    ensures Pass("F", [Rule("X", "Y"), Rule("F", "FX")]) == "FX"
  {
    assert ReplaceAll("F", "F", "FX") == "FX" by {
      assert "F"[..1] == "F" && "F"[1..] == [];
    }
    assert ReplaceAll("FX", "X", "Y") == "FY" by {
      assert "FX"[..1] == "F" && "FX"[1..] == "X";
      assert "X"[..1] == "X" && "X"[1..] == [];
    }
    assert ReplaceAll("F", "X", "Y") == "F" by {
      assert "F"[..1] == "F" && "F"[1..] == [];
    }
    assert [Rule("F", "FX"), Rule("X", "Y")][1..] == [Rule("X", "Y")];
    assert [Rule("X", "Y"), Rule("F", "FX")][1..] == [Rule("F", "FX")];
  }
}
