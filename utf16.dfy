/**
  JavaScript strings as the browser holds them: sequences of UTF-16 code
  units. `charCodeAt` reads one code unit and `String.fromCharCode` builds a
  one-unit string, so every character the extractor handles is one CodeUnit.
 */
module Utf16 {

  /** One UTF-16 code unit. */
  newtype CodeUnit = x: int | 0 <= x < 0x1_0000

  /** A JavaScript string. */
  type Text = seq<CodeUnit>

  /** The code unit of a character of the Basic Multilingual Plane. */
  function Unit(c: char): CodeUnit
    requires c as int < 0x1_0000
  {
    c as int as CodeUnit
  }

  /** No code unit occurs twice (the state of a JavaScript `Set` read in insertion order). */
  predicate NoDup(s: Text) {
    forall i, j :: 0 <= i < j < |s| ==> s[i] != s[j]
  }

  /** The codes `lo, lo + 1, ..., hi - 1` in ascending order (empty when `hi <= lo`). */
  function CodeRun(lo: int, hi: int): (r: Text)
    requires 0 <= lo && hi <= 0x1_0000
    ensures |r| == if hi <= lo then 0 else hi - lo
    ensures forall k :: 0 <= k < |r| ==> r[k] as int == lo + k
    ensures forall c: CodeUnit :: c in r <==> lo <= c as int < hi
  {
    var n := if hi <= lo then 0 else hi - lo;
    var r := seq(n, k requires 0 <= k < n => (lo + k) as CodeUnit);
    assert forall c: CodeUnit :: lo <= c as int < hi ==> c in r by {
      forall c: CodeUnit | lo <= c as int < hi ensures c in r {
        assert r[c as int - lo] == c;
      }
    }
    r
  }

  /** A run grows by its next code, as the loop `for (j = start + 1; j < end; j++)` adds it. */
  lemma CodeRunSnoc(lo: int, hi: int)
    requires 0 <= lo <= hi < 0x1_0000
    ensures CodeRun(lo, hi + 1) == CodeRun(lo, hi) + [hi as CodeUnit]
  {
  }

  lemma CodeRunNoDup(lo: int, hi: int)
    requires 0 <= lo && hi <= 0x1_0000
    ensures NoDup(CodeRun(lo, hi))
  {
  }

  /** `s` occurs in `p` starting at index `i`. */
  predicate OccursAt(p: Text, s: Text, i: int) {
    0 <= i && i + |s| <= |p| && p[i..i + |s|] == s
  }

  /** Moving the search one code unit to the right shifts every occurrence by one. */
  lemma OccursShift(p: Text, s: Text)
    requires |p| > 0
    ensures forall i :: OccursAt(p[1..], s, i) ==> OccursAt(p, s, i + 1)
    ensures forall i :: 0 < i && OccursAt(p, s, i) ==> OccursAt(p[1..], s, i - 1)
  {
    forall i | OccursAt(p[1..], s, i) ensures OccursAt(p, s, i + 1) {
      assert p[1..][i..i + |s|] == p[i + 1..i + 1 + |s|];
    }
    forall i | 0 < i && OccursAt(p, s, i) ensures OccursAt(p[1..], s, i - 1) {
      assert p[1..][i - 1..i - 1 + |s|] == p[i..i + |s|];
    }
  }

  /**
    `p.includes(s)`: substring search from the left. It reports true exactly
    when `s` occurs somewhere in `p`.
   */
  function Includes(p: Text, s: Text): (r: bool)
    ensures r <==> exists i :: OccursAt(p, s, i)
    decreases |p|
  {
    if |s| > |p| then false
    else if p[..|s|] == s then
      assert OccursAt(p, s, 0);
      true
    else
      assert !OccursAt(p, s, 0);
      OccursShift(p, s);
      Includes(p[1..], s)
  }

  /** A token placed anywhere in a text is found, whatever surrounds it. */
  lemma IncludesInfix(a: Text, s: Text, b: Text)
    ensures Includes(a + s + b, s)
  {
    var p := a + s + b;
    assert p[|a|..|a| + |s|] == s;
    assert OccursAt(p, s, |a|);
  }

  /** A text that includes a non-empty token holds the token's first code unit. */
  lemma IncludesFirst(p: Text, s: Text)
    ensures Includes(p, s) && |s| > 0 ==> s[0] in p
  {
    if Includes(p, s) && |s| > 0 {
      var i :| OccursAt(p, s, i);
      assert p[i] == p[i..i + |s|][0];
    }
  }

  /** A text that includes a two-unit token holds the two units side by side. */
  lemma IncludesPair(p: Text, s: Text)
    ensures Includes(p, s) && |s| == 2 ==> exists i :: 0 <= i < |p| - 1 && p[i] == s[0] && p[i + 1] == s[1]
  {
    if Includes(p, s) && |s| == 2 {
      var i :| OccursAt(p, s, i);
      assert p[i] == p[i..i + 2][0] && p[i + 1] == p[i..i + 2][1];
    }
  }
}
