/**
 * The string primitives both implementations lean on: substring search in the
 * manner of std::string::find, character counting, and Python's str.split on a
 * one-character separator with its inverse.
 */
module Strings {
  import opened Wrappers

  /** `pat` occurs in `s` starting at index `i`. */
  predicate Occurs(s: string, pat: string, i: nat) {
    i + |pat| <= |s| && s[i..i + |pat|] == pat
  }

  /**
   * std::string::find(pat, from): the least index at or after `from` where
   * `pat` occurs, or None for npos.  For an empty `pat` this is `from` itself
   * as long as `from <= |s|`.
   */
  function Find(s: string, pat: string, from: nat): (r: Option<nat>)
    ensures r.Some? ==> from <= r.value && Occurs(s, pat, r.value)
    ensures r.Some? ==> forall j :: from <= j < r.value ==> !Occurs(s, pat, j)
    ensures r.None? ==> forall j :: from <= j ==> !Occurs(s, pat, j)
    decreases |s| - from
  {
    if from + |pat| > |s| then None
    else if Occurs(s, pat, from) then Some(from)
    else Find(s, pat, from + 1)
  }

  /**
   * std::string::find(c, from) for a single character: the least index at
   * or after `from` holding `c`, or None for npos.
   */
  function FindChar(s: string, c: char, from: nat): (r: Option<nat>)
    ensures r.Some? ==> from <= r.value < |s| && s[r.value] == c
    ensures r.Some? ==> forall j :: from <= j < r.value ==> s[j] != c
    ensures r.None? ==> forall j :: from <= j < |s| ==> s[j] != c
    decreases |s| - from
  {
    if from >= |s| then None
    else if s[from] == c then Some(from)
    else FindChar(s, c, from + 1)
  }

  /**
   * Replacing the `n` characters at `p` by `body`: the result starts with
   * w[..p] + body and continues with what followed the replaced text.
   */
  lemma Splice(w: string, body: string, pos: nat, p: nat, n: nat, tail: string)
    requires pos <= p && p + n <= |w|
    ensures var w' := w[..p] + body + w[p + n..];
            w'[..p + |body|] == w[..p] + body && w'[p + |body|..] == w[p + n..]
            && w[..p] + body + tail == w[..pos] + (w[pos..p] + body + tail)
  {
    assert w[..p] == w[..pos] + w[pos..p];
  }

  /** Number of occurrences of the character `c` in `s`. */
  function CountChar(s: string, c: char): nat {
    if s == [] then 0
    else (if s[0] == c then 1 else 0) + CountChar(s[1..], c)
  }

  /**
   * Python's `s.split(sep)` for a one-character separator: the pieces between
   * separators, always at least one (the empty string splits into [""]).
   */
  function Split(s: string, sep: char): (parts: seq<string>)
    ensures |parts| == CountChar(s, sep) + 1
    ensures forall i :: 0 <= i < |parts| ==> sep !in parts[i]
  {
    if s == [] then [[]]
    else
      var rest := Split(s[1..], sep);
      if s[0] == sep then [[]] + rest
      else [[s[0]] + rest[0]] + rest[1..]
  }

  /** `sep.join(parts)`. */
  function Join(parts: seq<string>, sep: char): string
    requires |parts| > 0
  {
    if |parts| == 1 then parts[0] else parts[0] + [sep] + Join(parts[1..], sep)
  }

  /** Joining the pieces of a split with the same separator gives the string back. */
  lemma {:induction false} JoinSplit(s: string, sep: char)
    ensures Join(Split(s, sep), sep) == s
  {
    if s != [] {
      JoinSplit(s[1..], sep);
      var rest := Split(s[1..], sep);
      if s[0] != sep {
        if |rest| == 1 {
          assert Split(s, sep) == [[s[0]] + rest[0]];
        } else {
          assert Split(s, sep)[1..] == rest[1..];
        }
      } else {
        assert Split(s, sep)[1..] == rest;
      }
    }
  }

  /** Splitting a string joined from separator-free pieces gives the pieces back. */
  lemma {:induction false} SplitJoin(parts: seq<string>, sep: char)
    requires |parts| > 0
    requires forall i :: 0 <= i < |parts| ==> sep !in parts[i]
    ensures Split(Join(parts, sep), sep) == parts
  {
    if |parts| == 1 {
      SplitFree(parts[0], sep);
    } else {
      SplitJoin(parts[1..], sep);
      SplitPrefix(parts[0], Join(parts[1..], sep), sep);
      assert parts[0] + [sep] + Join(parts[1..], sep) == parts[0] + ([sep] + Join(parts[1..], sep));
      assert parts == [parts[0]] + parts[1..];
    }
  }

  lemma {:induction false} SplitFree(s: string, sep: char)
    requires sep !in s
    ensures Split(s, sep) == [s]
  {
    if s != [] {
      SplitFree(s[1..], sep);
      assert [s[0]] + s[1..] == s;
    }
  }

  lemma {:induction false} SplitPrefix(a: string, b: string, sep: char)
    requires sep !in a
    ensures Split(a + ([sep] + b), sep) == [a] + Split(b, sep)
  {
    if a == [] {
      assert a + ([sep] + b) == [sep] + b;
      assert ([sep] + b)[1..] == b;
    } else {
      assert (a + ([sep] + b))[1..] == a[1..] + ([sep] + b);
      SplitPrefix(a[1..], b, sep);
      assert [a[0]] + a[1..] == a;
    }
  }
}
