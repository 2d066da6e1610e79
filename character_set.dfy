/**
  The character-set extractor `extractCharacters` of validtion.js.

  It reads the text of a regular expression and approximates the alphabet the
  expression accepts: the characters listed in its bracket classes (ranges
  expanded), plus the fixed expansions of the shorthands `\d`, `\s` and `\w`
  when they occur anywhere in the text. The result is a JavaScript `Set`
  joined into a string, so it is duplicate-free and in insertion order.
 */
module CharacterSet {
  import opened Utf16

  const OpenBracket: CodeUnit := Unit('[')
  const CloseBracket: CodeUnit := Unit(']')
  const Hyphen: CodeUnit := Unit('-')
  const Caret: CodeUnit := Unit('^')
  const Backslash: CodeUnit := Unit('\\')

  // ---------------------------------------------------------------------------
  // Bracket classes: the matches of pattern.match(/\[([^\]]+)\]/g)
  // ---------------------------------------------------------------------------

  /** Where one match of the class scanner lies: `p[open] == '['`, `p[close] == ']'`. */
  datatype Span = Span(open: nat, close: nat)

  /** Index of the first `]` at or after `j`, or `|p|` when there is none. */
  function FirstClose(p: Text, j: nat): (k: nat)
    requires j <= |p|
    ensures j <= k <= |p|
    ensures k < |p| ==> p[k] == CloseBracket
    ensures forall m :: j <= m < k ==> p[m] != CloseBracket
    decreases |p| - j
  {
    if j == |p| || p[j] == CloseBracket then j else FirstClose(p, j + 1)
  }

  /**
    A match of `\[([^\]]+)\]` occupies `p[sp.open..sp.close + 1]`: a `[`, one
    or more characters none of which is `]`, and the `]` that closes it.
   */
  predicate IsMatch(p: Text, sp: Span) {
    && sp.open + 1 < sp.close < |p|
    && p[sp.open] == OpenBracket
    && p[sp.close] == CloseBracket
    && forall m :: sp.open < m < sp.close ==> p[m] != CloseBracket
  }

  /** The scanner's test at index `s`: a `[` whose first following `]` is not adjacent. */
  predicate MatchesAt(p: Text, s: nat) {
    s < |p| && p[s] == OpenBracket && s + 1 < FirstClose(p, s + 1) < |p|
  }

  /** `FirstClose` finds the `]` that no earlier `]` precedes. */
  lemma {:induction false} FirstCloseIs(p: Text, j: nat, c: nat)
    requires j <= c < |p| && p[c] == CloseBracket
    requires forall m :: j <= m < c ==> p[m] != CloseBracket
    ensures FirstClose(p, j) == c
    decreases c - j
  {
    if j < c {
      FirstCloseIs(p, j + 1, c);
    }
  }

  /** The test finds a match at `s` exactly when the regex can match there. */
  lemma MatchesAtIff(p: Text, s: nat)
    requires s < |p|
    ensures MatchesAt(p, s) <==> exists c: nat :: IsMatch(p, Span(s, c))
  {
    if c: nat :| IsMatch(p, Span(s, c)) {
      FirstCloseIs(p, s + 1, c);
    }
    if MatchesAt(p, s) {
      assert IsMatch(p, Span(s, FirstClose(p, s + 1)));
    }
  }

  /**
    The global scan from index `i`: test each index in turn; after a match,
    resume just past its `]`. Every span found is a match, and it closes at the
    first `]` after its `[`.
   */
  function MatchSpansFrom(p: Text, i: nat): (r: seq<Span>)
    requires i <= |p|
    ensures forall k :: 0 <= k < |r| ==> i <= r[k].open && IsMatch(p, r[k])
    decreases |p| - i
  {
    if i == |p| then []
    else if MatchesAt(p, i) then
      var close := FirstClose(p, i + 1);
      [Span(i, close)] + MatchSpansFrom(p, close + 1)
    else
      MatchSpansFrom(p, i + 1)
  }

  /** The spans `r` are in text order and do not overlap. */
  ghost predicate Ordered(r: seq<Span>) {
    forall j, k :: 0 <= j < k < |r| ==> r[j].close < r[k].open
  }

  lemma {:induction false} SpansOrdered(p: Text, i: nat)
    requires i <= |p|
    ensures Ordered(MatchSpansFrom(p, i))
    decreases |p| - i
  {
    if i < |p| {
      var r := MatchSpansFrom(p, i);
      if MatchesAt(p, i) {
        var close := FirstClose(p, i + 1);
        SpansOrdered(p, close + 1);
        var rest := MatchSpansFrom(p, close + 1);
        assert r == [Span(i, close)] + rest;
        forall j, k | 0 <= j < k < |r| ensures r[j].close < r[k].open {
          assert r[k] == rest[k - 1];
          if j > 0 {
            assert r[j] == rest[j - 1];
          }
        }
      } else {
        SpansOrdered(p, i + 1);
        assert r == MatchSpansFrom(p, i + 1);
      }
    }
  }

  /** Index `s` lies within one of the spans `r`, brackets included. */
  ghost predicate Covered(r: seq<Span>, s: int) {
    exists k :: 0 <= k < |r| && r[k].open <= s <= r[k].close
  }

  /**
    The scan misses no match: every index from `i` on where the regex could
    start a match is the start of a span or lies inside an earlier one.
   */
  lemma {:induction false} SpansCover(p: Text, i: nat)
    requires i <= |p|
    ensures forall s: nat :: i <= s && MatchesAt(p, s) ==> Covered(MatchSpansFrom(p, i), s)
    decreases |p| - i
  {
    if i < |p| {
      var r := MatchSpansFrom(p, i);
      if MatchesAt(p, i) {
        var close := FirstClose(p, i + 1);
        SpansCover(p, close + 1);
        var rest := MatchSpansFrom(p, close + 1);
        assert r == [Span(i, close)] + rest;
        forall s: nat | i <= s && MatchesAt(p, s) ensures Covered(r, s) {
          if s <= close {
            assert r[0].open <= s <= r[0].close;
          } else {
            var k :| 0 <= k < |rest| && rest[k].open <= s <= rest[k].close;
            assert r[k + 1] == rest[k];
          }
        }
      } else {
        SpansCover(p, i + 1);
        assert r == MatchSpansFrom(p, i + 1);
      }
    }
  }

  /** A scanner match as text: `[`, the class body, `]`. */
  predicate IsClassText(m: Text) {
    && |m| >= 3
    && m[0] == OpenBracket
    && m[|m| - 1] == CloseBracket
    && forall j :: 0 < j < |m| - 1 ==> m[j] != CloseBracket
  }

  /** The array `pattern.match(/\[([^\]]+)\]/g)`, empty where JavaScript gives `null`. */
  function Matches(p: Text): (r: seq<Text>)
    ensures forall k :: 0 <= k < |r| ==> IsClassText(r[k])
  {
    var spans := MatchSpansFrom(p, 0);
    var r := seq(|spans|, k requires 0 <= k < |spans| => p[spans[k].open .. spans[k].close + 1]);
    assert forall k :: 0 <= k < |r| ==> IsClassText(r[k]) by {
      forall k | 0 <= k < |r| ensures IsClassText(r[k]) {
        var sp := spans[k];
        assert forall j :: 0 < j < |r[k]| - 1 ==> r[k][j] == p[sp.open + j];
      }
    }
    r
  }

  /**
    `match.slice(1, -1)`: the class body between the brackets. For a match of
    the scanner it is non-empty and holds no `]`.
   */
  function Inner(m: Text): (r: Text)
    ensures |m| >= 2 ==> |r| == |m| - 2 && forall j :: 0 <= j < |r| ==> r[j] == m[j + 1]
    ensures |m| < 2 ==> r == []
    ensures IsClassText(m) ==> |r| >= 1 && CloseBracket !in r
  {
    if |m| >= 2 then m[1..|m| - 1] else []
  }

  // ---------------------------------------------------------------------------
  // Walking one class body
  // ---------------------------------------------------------------------------

  /** A hyphen with a character on either side: a range operator. */
  predicate InteriorHyphen(f: Text, i: int) {
    0 < i < |f| - 1 && f[i] == Hyphen
  }

  /**
    What the visit of index `i` adds, stated as a relation: the codes strictly
    between the neighbours of an interior hyphen, or else the character itself.
   */
  predicate Adds(f: Text, i: int, c: CodeUnit)
    requires 0 <= i < |f|
  {
    if InteriorHyphen(f, i) then f[i - 1] < c < f[i + 1] else c == f[i]
  }

  /** The class body `f` contributes `c` at one of its indices. */
  predicate InFragment(f: Text, c: CodeUnit) {
    exists i :: 0 <= i < |f| && Adds(f, i, c)
  }

  /** The codes added, in order, when the walk visits index `i` of class body `f`. */
  function Visit(f: Text, i: nat): (r: Text)
    requires i < |f|
    ensures forall c :: c in r <==> Adds(f, i, c)
  {
    if InteriorHyphen(f, i) then CodeRun(f[i - 1] as int + 1, f[i + 1] as int) else [f[i]]
  }

  /** The codes added, in order, by visiting indices `0 .. n - 1` of `f`. */
  function VisitUpTo(f: Text, n: nat): Text
    requires n <= |f|
  {
    if n == 0 then [] else VisitUpTo(f, n - 1) + Visit(f, n - 1)
  }

  /** The codes added, in order, by walking the bodies of the matches `ms`. */
  function ClassUnits(ms: seq<Text>): Text {
    if ms == [] then [] else ClassUnits(ms[..|ms| - 1]) + Walk(Inner(ms[|ms| - 1]))
  }

  /** The codes added, in order, by walking the whole class body `f`. */
  function Walk(f: Text): Text {
    VisitUpTo(f, |f|)
  }

  lemma {:induction false} VisitUpToMembers(f: Text, n: nat, c: CodeUnit)
    requires n <= |f|
    ensures c in VisitUpTo(f, n) <==> exists i :: 0 <= i < n && Adds(f, i, c)
  {
    if n > 0 {
      VisitUpToMembers(f, n - 1, c);
      assert c in Visit(f, n - 1) <==> Adds(f, n - 1, c);
    }
  }

  /** The walk of a class body adds exactly the codes the body contributes. */
  lemma WalkMembers(f: Text, c: CodeUnit)
    ensures c in Walk(f) <==> InFragment(f, c)
  {
    VisitUpToMembers(f, |f|, c);
  }

  lemma {:induction false} ClassUnitsMembers(ms: seq<Text>, c: CodeUnit)
    ensures c in ClassUnits(ms) <==> exists k :: 0 <= k < |ms| && InFragment(Inner(ms[k]), c)
  {
    if ms != [] {
      var init := ms[..|ms| - 1];
      ClassUnitsMembers(init, c);
      WalkMembers(Inner(ms[|ms| - 1]), c);
      assert forall k :: 0 <= k < |init| ==> init[k] == ms[k];
    }
  }

  /** Some bracket class of `p` contributes `c`. */
  predicate InClasses(p: Text, c: CodeUnit) {
    exists m :: m in Matches(p) && InFragment(Inner(m), c)
  }

  // ---------------------------------------------------------------------------
  // The shorthand escapes
  // ---------------------------------------------------------------------------

  /** A shorthand token and the characters it stands for. */
  datatype Shorthand = Shorthand(token: Text, expansion: Text)

  /** `'0123456789'` */
  const Digits: Text := CodeRun(Unit('0') as int, Unit('9') as int + 1)

  /** `' \t\n\r\v\f'` */
  const Spaces: Text := [Unit(' '), Unit('\t'), Unit('\n'), Unit('\r'), 0x0B, 0x0C]

  /** `'a'..'z'`, `'A'..'Z'`, `'0'..'9'` and `'_'`, in that order. */
  const WordChars: Text :=
    CodeRun(Unit('a') as int, Unit('z') as int + 1) + CodeRun(Unit('A') as int, Unit('Z') as int + 1)
    + Digits + [Unit('_')]

  /** The two-character tokens `\d`, `\s`, `\w`, in the order of the source's object keys. */
  const Shorthands: seq<Shorthand> := [
    Shorthand([Backslash, Unit('d')], Digits),
    Shorthand([Backslash, Unit('s')], Spaces),
    Shorthand([Backslash, Unit('w')], WordChars)
  ]

  /** Joining two duplicate-free texts with no code in common gives a duplicate-free text. */
  lemma NoDupConcat(a: Text, b: Text)
    requires NoDup(a) && NoDup(b)
    requires forall x :: x in a ==> x !in b
    ensures NoDup(a + b)
  {
    var s := a + b;
    forall i, j | 0 <= i < j < |s| ensures s[i] != s[j] {
      if i < |a| && |a| <= j {
        assert s[i] in a && s[j] in b;
      } else if |a| <= i {
        assert s[i] == b[i - |a|] && s[j] == b[j - |a|];
      }
    }
  }

  /** The three expansion strings: 10, 6 and 63 characters, none repeated. */
  lemma ExpansionTables()
    ensures |Digits| == 10 && NoDup(Digits)
    ensures |Spaces| == 6 && NoDup(Spaces)
    ensures |WordChars| == 63 && NoDup(WordChars)
  {
    var lower := CodeRun(Unit('a') as int, Unit('z') as int + 1);
    var upper := CodeRun(Unit('A') as int, Unit('Z') as int + 1);
    CodeRunNoDup(Unit('a') as int, Unit('z') as int + 1);
    CodeRunNoDup(Unit('A') as int, Unit('Z') as int + 1);
    CodeRunNoDup(Unit('0') as int, Unit('9') as int + 1);
    NoDupConcat(lower, upper);
    NoDupConcat(lower + upper, Digits);
    NoDupConcat(lower + upper + Digits, [Unit('_')]);
  }

  /** The three expansion strings hold exactly the digits, the whitespace and the word characters. */
  lemma ExpansionMembers()
    ensures forall c :: c in Digits <==> IsDigit(c)
    ensures forall c :: c in Spaces <==> IsSpace(c)
    ensures forall c :: c in WordChars <==> IsWordChar(c)
  {
  }

  predicate IsDigit(c: CodeUnit) {
    Unit('0') <= c <= Unit('9')
  }

  predicate IsSpace(c: CodeUnit) {
    c == Unit(' ') || c == Unit('\t') || c == Unit('\n') || c == Unit('\r') || c == 0x0B || c == 0x0C
  }

  predicate IsWordChar(c: CodeUnit) {
    Unit('a') <= c <= Unit('z') || Unit('A') <= c <= Unit('Z') || IsDigit(c) || c == Unit('_')
  }

  /** Some shorthand token occurs in `p` and its expansion holds `c`. */
  predicate InShorthand(p: Text, c: CodeUnit) {
    || (Includes(p, Shorthands[0].token) && IsDigit(c))
    || (Includes(p, Shorthands[1].token) && IsSpace(c))
    || (Includes(p, Shorthands[2].token) && IsWordChar(c))
  }

  /** The codes added, in order, by the shorthands `es` that occur in `p`. */
  function EscapeUnits(p: Text, es: seq<Shorthand>): Text {
    if es == [] then []
    else EscapeUnits(p, es[..|es| - 1]) + Expansion(p, es[|es| - 1])
  }

  // ---------------------------------------------------------------------------
  // The set and the extractor
  // ---------------------------------------------------------------------------

  /** `charSet.add(c)` on a set kept in insertion order. */
  function Add(s: Text, c: CodeUnit): (r: Text)
    ensures forall x :: x in r <==> x in s || x == c
    ensures s <= r
    ensures NoDup(s) ==> NoDup(r)
  {
    if c in s then s else s + [c]
  }

  /** Adding the codes `xs` to the set `s` one after the other. */
  function AddAll(s: Text, xs: Text): (r: Text)
    ensures forall x :: x in r <==> x in s || x in xs
    ensures s <= r
    ensures NoDup(s) ==> NoDup(r)
  {
    if xs == [] then s else Add(AddAll(s, xs[..|xs| - 1]), xs[|xs| - 1])
  }

  lemma AddAllOne(s: Text, x: CodeUnit)
    ensures AddAll(s, [x]) == Add(s, x)
  {
    assert [x][..0] == [];
  }

  lemma AddAllSnoc(s: Text, xs: Text, x: CodeUnit)
    ensures AddAll(s, xs + [x]) == Add(AddAll(s, xs), x)
  {
    assert (xs + [x])[..|xs|] == xs;
  }

  /** Every code the extractor adds, in the order it adds them. */
  function Contributions(p: Text): Text {
    ClassUnits(Matches(p)) + EscapeUnits(p, Shorthands)
  }

  /**
    The string `extractCharacters` returns for the regex text `p`: every
    contributed code exactly once.
   */
  function Extracted(p: Text): (r: Text)
    ensures NoDup(r)
    ensures forall c :: c in r <==> c in Contributions(p)
  {
    AddAll([], Contributions(p))
  }

  /** Adding `xs` and then `ys` is adding `xs + ys`. */
  lemma {:induction false} AddAllConcat(s: Text, xs: Text, ys: Text)
    ensures AddAll(s, xs + ys) == AddAll(AddAll(s, xs), ys)
    decreases |ys|
  {
    if ys == [] {
      assert xs + ys == xs;
    } else {
      var init := ys[..|ys| - 1];
      var y := ys[|ys| - 1];
      assert xs + ys == (xs + init) + [y];
      assert ys == init + [y];
      AddAllConcat(s, xs, init);
      AddAllSnoc(s, xs + init, y);
      AddAllSnoc(AddAll(s, xs), init, y);
    }
  }

  /** The loop `for (let j = start + 1; j < end; j++) charSet.add(...)` of a range. */
  method AddRange(charSet: Text, start: CodeUnit, end: CodeUnit) returns (r: Text)
    ensures r == AddAll(charSet, CodeRun(start as int + 1, end as int))
  {
    r := charSet;
    var j := start as int + 1;
    while j < end as int
      invariant start as int + 1 <= j && (j <= end as int || j == start as int + 1)
      invariant r == AddAll(charSet, CodeRun(start as int + 1, j))
    {
      CodeRunSnoc(start as int + 1, j);
      AddAllSnoc(charSet, CodeRun(start as int + 1, j), j as CodeUnit);
      r := Add(r, j as CodeUnit);
      j := j + 1;
    }
  }

  /** One step of the walk: the visit of index `i` of the class body `chars`. */
  method AddVisit(charSet: Text, chars: Text, i: nat) returns (r: Text)
    requires i < |chars|
    ensures r == AddAll(charSet, Visit(chars, i))
  {
    var ch := chars[i];
    if ch == Hyphen && i > 0 && i < |chars| - 1 {
      r := AddRange(charSet, chars[i - 1], chars[i + 1]);
      assert Visit(chars, i) == CodeRun(chars[i - 1] as int + 1, chars[i + 1] as int);
    } else {
      r := Add(charSet, ch);
      assert Visit(chars, i) == [ch];
      AddAllOne(charSet, ch);
    }
  }

  /**
    The callback `match => { ... }` run on one match: walk its class body left
    to right, adding literals and expanding interior-hyphen ranges.
   */
  method AddClass(charSet: Text, m: Text) returns (r: Text)
    ensures r == AddAll(charSet, Walk(Inner(m)))
  {
    r := charSet;
    var chars := Inner(m);
    for i := 0 to |chars|
      invariant r == AddAll(charSet, VisitUpTo(chars, i))
    {
      AddAllConcat(charSet, VisitUpTo(chars, i), Visit(chars, i));
      r := AddVisit(r, chars, i);
    }
  }

  /**
    The callback `seq => { ... }` run on one shorthand: when the pattern text
    includes its token, add its whole expansion.
   */
  method AddShorthand(charSet: Text, p: Text, sh: Shorthand) returns (r: Text)
    ensures r == AddAll(charSet, Expansion(p, sh))
  {
    r := charSet;
    if Includes(p, sh.token) {
      for t := 0 to |sh.expansion|
        invariant r == AddAll(charSet, sh.expansion[..t])
      {
        assert sh.expansion[..t + 1] == sh.expansion[..t] + [sh.expansion[t]];
        AddAllSnoc(charSet, sh.expansion[..t], sh.expansion[t]);
        r := Add(r, sh.expansion[t]);
      }
      assert sh.expansion[..|sh.expansion|] == sh.expansion;
    }
  }

  /** `matches.forEach(...)`: the class callback on every match in order. */
  method AddClasses(charSet: Text, ms: seq<Text>) returns (r: Text)
    ensures r == AddAll(charSet, ClassUnits(ms))
  {
    r := charSet;
    for k := 0 to |ms|
      invariant r == AddAll(charSet, ClassUnits(ms[..k]))
    {
      assert ms[..k + 1][..k] == ms[..k];
      AddAllConcat(charSet, ClassUnits(ms[..k]), Walk(Inner(ms[k])));
      r := AddClass(r, ms[k]);
    }
    assert ms[..|ms|] == ms;
  }

  /** `Object.keys(escapeSequences).forEach(...)`: the shorthand callback on every key in order. */
  method AddShorthands(charSet: Text, p: Text, es: seq<Shorthand>) returns (r: Text)
    ensures r == AddAll(charSet, EscapeUnits(p, es))
  {
    r := charSet;
    for k := 0 to |es|
      invariant r == AddAll(charSet, EscapeUnits(p, es[..k]))
    {
      assert es[..k + 1][..k] == es[..k];
      AddAllConcat(charSet, EscapeUnits(p, es[..k]), Expansion(p, es[k]));
      r := AddShorthand(r, p, es[k]);
    }
    assert es[..|es|] == es;
  }

  /**
    `extractCharacters(regex)` with `p` the text `regex.toString()`: runs the
    class callback over the matches and then the shorthand callback over the
    table, on one set.
   */
  method ExtractCharacters(p: Text) returns (r: Text)
    ensures r == Extracted(p)
    ensures NoDup(r)
    ensures forall c :: c in r <==> InClasses(p, c) || InShorthand(p, c)
  {
    var charSet := AddClasses([], Matches(p));
    r := AddShorthands(charSet, p, Shorthands);
    AddAllConcat([], ClassUnits(Matches(p)), EscapeUnits(p, Shorthands));
    ExtractedMembers(p);
  }

  // ---------------------------------------------------------------------------
  // What the extracted set holds
  // ---------------------------------------------------------------------------

  /** Whether a shorthand's expansion is added depends only on its token occurring in `p`. */
  function Expansion(p: Text, sh: Shorthand): Text {
    if Includes(p, sh.token) then sh.expansion else []
  }

  /** The table is walked in key order: `\d`, then `\s`, then `\w`. */
  lemma EscapeUnitsInOrder(p: Text)
    ensures EscapeUnits(p, Shorthands)
      == Expansion(p, Shorthands[0]) + Expansion(p, Shorthands[1]) + Expansion(p, Shorthands[2])
  {
    var es := Shorthands;
    assert es[..1][..0] == [] && es[..2][..1] == es[..1] && es[..3][..2] == es[..2] && es[..3] == es;
    assert EscapeUnits(p, es[..1]) == Expansion(p, es[0]);
    assert EscapeUnits(p, es[..2]) == EscapeUnits(p, es[..1]) + Expansion(p, es[1]);
  }

  lemma ShorthandMembers(p: Text, c: CodeUnit)
    ensures c in EscapeUnits(p, Shorthands) <==> InShorthand(p, c)
  {
    EscapeUnitsInOrder(p);
    assert c in Digits <==> IsDigit(c);
    assert c in WordChars <==> IsWordChar(c);
  }

  /**
    Soundness and completeness: a code is in the extracted set exactly when a
    bracket class contributes it or a shorthand present in the text expands to
    it; and the set holds each code once.
   */
  lemma ExtractedMembers(p: Text)
    ensures NoDup(Extracted(p))
    ensures forall c :: c in Extracted(p) <==> InClasses(p, c) || InShorthand(p, c)
  {
    forall c ensures c in Extracted(p) <==> InClasses(p, c) || InShorthand(p, c) {
      ExtractedMember(p, c);
    }
  }

  lemma ExtractedMember(p: Text, c: CodeUnit)
    ensures c in Extracted(p) <==> InClasses(p, c) || InShorthand(p, c)
  {
    ShorthandMembers(p, c);
    ClassUnitsMembers(Matches(p), c);
    InClassesAt(p, c);
    assert c in Extracted(p) <==> c in ClassUnits(Matches(p)) || c in EscapeUnits(p, Shorthands);
  }

  /** `InClasses` with the match named by its position. */
  lemma InClassesAt(p: Text, c: CodeUnit)
    ensures InClasses(p, c) <==> exists k :: 0 <= k < |Matches(p)| && InFragment(Inner(Matches(p)[k]), c)
  {
    var ms := Matches(p);
    if InClasses(p, c) {
      var m :| m in ms && InFragment(Inner(m), c);
      var k :| 0 <= k < |ms| && ms[k] == m;
      assert InFragment(Inner(ms[k]), c);
    }
    if k :| 0 <= k < |ms| && InFragment(Inner(ms[k]), c) {
      assert ms[k] in ms;
    }
  }

  // ---------------------------------------------------------------------------
  // Properties of the class walk
  // ---------------------------------------------------------------------------

  /** Whatever a class body of `p` contributes at one of its indices ends up in the set. */
  lemma ClassContributes(p: Text, m: Text, i: int, c: CodeUnit)
    requires m in Matches(p) && 0 <= i < |Inner(m)| && Adds(Inner(m), i, c)
    ensures c in Extracted(p)
  {
    assert InFragment(Inner(m), c);
    ExtractedMembers(p);
  }

  /**
    Every character of a class body that is not a range operator is kept as a
    literal: a leading `^`, a `-` at either end, a `[` inside the class.
   */
  lemma LiteralKept(p: Text, m: Text, i: int)
    requires m in Matches(p) && 0 <= i < |Inner(m)| && !InteriorHyphen(Inner(m), i)
    ensures Inner(m)[i] in Extracted(p)
  {
    ClassContributes(p, m, i, Inner(m)[i]);
  }

  /** An interior hyphen adds every code strictly between its neighbours. */
  lemma RangeKept(p: Text, m: Text, i: int, c: CodeUnit)
    requires m in Matches(p) && InteriorHyphen(Inner(m), i)
    requires Inner(m)[i - 1] < c < Inner(m)[i + 1]
    ensures c in Extracted(p)
  {
    ClassContributes(p, m, i, c);
  }

  /**
    A range `x-y` whose ends are ordinary characters supports `x` through `y`
    inclusive: the ends come from their own literal visits, the interior from
    the hyphen.
   */
  lemma RangeInclusive(p: Text, m: Text, i: int, c: CodeUnit)
    requires m in Matches(p) && InteriorHyphen(Inner(m), i)
    requires !InteriorHyphen(Inner(m), i - 1) && !InteriorHyphen(Inner(m), i + 1)
    requires Inner(m)[i - 1] <= c <= Inner(m)[i + 1]
    ensures c in Extracted(p)
  {
    var f := Inner(m);
    if c == f[i - 1] {
      LiteralKept(p, m, i - 1);
    } else if c == f[i + 1] {
      LiteralKept(p, m, i + 1);
    } else {
      RangeKept(p, m, i, c);
    }
  }

  /**
    In the class body `a--z` the second hyphen opens the range `-` to `z`, but
    its start `-` is itself a range operator, so `-` is never added: a range
    end is supported only when it is visited as a literal.
   */
  lemma HyphenEndpointDropped()
    ensures Hyphen !in Walk([Unit('a'), Hyphen, Hyphen, Unit('z')])
  {
    var f := [Unit('a'), Hyphen, Hyphen, Unit('z')];
    HyphenOrigin(f);
    assert !(f[1 - 1] < Hyphen);
    assert !(f[2 - 1] < Hyphen);
  }

  /** A range whose start is not below its end adds nothing, not even its hyphen. */
  lemma EmptyRangeAddsNothing(f: Text, i: int)
    requires InteriorHyphen(f, i) && f[i + 1] <= f[i - 1]
    ensures Visit(f, i) == []
  {
  }

  /**
    A class body adds `-` itself only when `-` is its first or last character;
    otherwise `-` is in its walk only when some range straddles it.
   */
  lemma HyphenOrigin(f: Text)
    ensures Hyphen in Walk(f) <==>
      || (|f| > 0 && (f[0] == Hyphen || f[|f| - 1] == Hyphen))
      || (exists i :: InteriorHyphen(f, i) && f[i - 1] < Hyphen < f[i + 1])
  {
    WalkMembers(f, Hyphen);
    if InFragment(f, Hyphen) {
      var i :| 0 <= i < |f| && Adds(f, i, Hyphen);
      if !InteriorHyphen(f, i) {
        assert i == 0 || i == |f| - 1;
      }
    }
    if |f| > 0 && f[0] == Hyphen {
      assert Adds(f, 0, Hyphen);
    }
    if |f| > 0 && f[|f| - 1] == Hyphen {
      assert Adds(f, |f| - 1, Hyphen);
    }
    if i :| InteriorHyphen(f, i) && f[i - 1] < Hyphen < f[i + 1] {
      assert Adds(f, i, Hyphen);
    }
  }

  // ---------------------------------------------------------------------------
  // Properties of the scan and of the whole extractor
  // ---------------------------------------------------------------------------

  /** The scan finds nothing in a text with no `[` from `i` on. */
  lemma {:induction false} NoOpenNoSpans(p: Text, i: nat)
    requires i <= |p|
    requires forall j :: i <= j < |p| ==> p[j] != OpenBracket
    ensures MatchSpansFrom(p, i) == []
    decreases |p| - i
  {
    if i < |p| {
      NoOpenNoSpans(p, i + 1);
    }
  }

  /** `[]` is no match (the class needs one character); the scan steps over it. */
  lemma EmptyClassSkipped(p: Text, i: nat)
    requires i + 1 < |p| && p[i] == OpenBracket && p[i + 1] == CloseBracket
    ensures MatchSpansFrom(p, i) == MatchSpansFrom(p, i + 2)
  {
    assert FirstClose(p, i + 1) == i + 1;
    assert !MatchesAt(p, i + 1);
  }

  /** A text without bracket-class matches and without shorthands supports no character. */
  lemma NothingExtracted(p: Text)
    requires Matches(p) == []
    requires forall k :: 0 <= k < |Shorthands| ==> !Includes(p, Shorthands[k].token)
    ensures Extracted(p) == []
  {
    EscapeUnitsInOrder(p);
    assert Contributions(p) == [];
  }

  /** Every shorthand token starts with `\\`, so a text without one includes none of them. */
  lemma NoBackslashNoShorthand(p: Text)
    requires Backslash !in p
    ensures forall k :: 0 <= k < |Shorthands| ==> !Includes(p, Shorthands[k].token)
  {
    forall k | 0 <= k < |Shorthands| ensures !Includes(p, Shorthands[k].token) {
      IncludesFirst(p, Shorthands[k].token);
    }
  }

  /** Wherever a shorthand token occurs in the text, its whole expansion is supported. */
  lemma ShorthandAnywhere(a: Text, b: Text, k: nat, c: CodeUnit)
    requires k < |Shorthands| && c in Shorthands[k].expansion
    ensures c in Extracted(a + Shorthands[k].token + b)
  {
    var p := a + Shorthands[k].token + b;
    IncludesInfix(a, Shorthands[k].token, b);
    ShorthandMembers(p, c);
    assert c in EscapeUnits(p, Shorthands);
    AddAllConcat([], ClassUnits(Matches(p)), EscapeUnits(p, Shorthands));
  }

  /** Adding distinct codes to an empty set keeps them all, in order. */
  lemma {:induction false} AddAllDistinct(xs: Text)
    requires NoDup(xs)
    ensures AddAll([], xs) == xs
  {
    if xs != [] {
      var init := xs[..|xs| - 1];
      var x := xs[|xs| - 1];
      assert NoDup(init) by {
        forall i, j | 0 <= i < j < |init| ensures init[i] != init[j] {
          assert init[i] == xs[i] && init[j] == xs[j];
        }
      }
      AddAllDistinct(init);
      assert x !in init by {
        forall i | 0 <= i < |init| ensures init[i] != x {
          assert init[i] == xs[i];
        }
      }
      calc {
        AddAll([], xs);
        Add(AddAll([], init), x);
        Add(init, x);
        init + [x];
        { assert init + [x] == xs; }
        xs;
      }
    }
  }

  /** When no code is contributed twice, the set lists the contributions in the order they were made. */
  lemma ExtractedInOrder(p: Text)
    requires NoDup(Contributions(p))
    ensures Extracted(p) == Contributions(p)
  {
    AddAllDistinct(Contributions(p));
  }

  // ---------------------------------------------------------------------------
  // Worked cases
  // ---------------------------------------------------------------------------

  const Slash: CodeUnit := Unit('/')

  /** The regex text `/^\d+$/`. */
  const DigitPatternText: Text := [Slash, Caret, Backslash, Unit('d'), Unit('+'), Unit('$'), Slash]

  /** The regex text `/[0-9]/`. */
  const DigitRangeText: Text := [Slash, OpenBracket, Unit('0'), Hyphen, Unit('9'), CloseBracket, Slash]

  /** The text `[a[b]`. */
  const NestedText: Text := [OpenBracket, Unit('a'), OpenBracket, Unit('b'), CloseBracket]

  /** The regex text `/[]a]/`. */
  const EmptyClassText: Text := [Slash, OpenBracket, CloseBracket, Unit('a'), CloseBracket, Slash]

  /** The regex text `/[^a-c]/`. */
  const CaretText: Text := [Slash, OpenBracket, Caret, Unit('a'), Hyphen, Unit('c'), CloseBracket, Slash]

  /** `/^\d+$/` has no bracket class; `\d` alone supplies the ten digits. */
  lemma DigitPatternScenario()
    ensures Extracted(DigitPatternText) == Digits
  {
    var p := DigitPatternText;
    NoOpenNoSpans(p, 0);
    assert p[2..4] == Shorthands[0].token;
    assert OccursAt(p, Shorthands[0].token, 2);
    IncludesPair(p, Shorthands[1].token);
    IncludesPair(p, Shorthands[2].token);
    EscapeUnitsInOrder(p);
    assert Contributions(p) == Digits;
    CodeRunNoDup(Unit('0') as int, Unit('9') as int + 1);
    AddAllDistinct(Digits);
  }

  /**
    A text with a single bracket class and no backslash supports exactly what
    that class walk adds, in walk order, when the walk repeats nothing.
   */
  lemma SingleClassExtracted(p: Text, m: Text)
    requires Matches(p) == [m] && Backslash !in p && NoDup(Walk(Inner(m)))
    ensures Extracted(p) == Walk(Inner(m))
  {
    assert [m][..0] == [];
    assert ClassUnits([m]) == Walk(Inner(m));
    NoBackslashNoShorthand(p);
    EscapeUnitsInOrder(p);
    assert Contributions(p) == Walk(Inner(m));
    AddAllDistinct(Walk(Inner(m)));
  }

  lemma DigitRangeScan()
    ensures Matches(DigitRangeText) == [DigitRangeText[1..6]]
  {
    var p := DigitRangeText;
    FirstCloseIs(p, 2, 5);
    NoOpenNoSpans(p, 6);
    assert MatchSpansFrom(p, 0) == [Span(1, 5)];
  }

  lemma DigitRangeWalk()
    ensures Walk(Inner(DigitRangeText[1..6])) == Digits
  {
    var m := DigitRangeText[1..6];
    assert m == [DigitRangeText[1], DigitRangeText[2], DigitRangeText[3], DigitRangeText[4], DigitRangeText[5]];
    var f := Inner(m);
    assert f == [Unit('0'), Hyphen, Unit('9')];
    assert Visit(f, 0) == [f[0]] && Visit(f, 2) == [f[2]];
    assert Visit(f, 1) == CodeRun(f[0] as int + 1, f[2] as int);
    assert VisitUpTo(f, 1) == [f[0]];
    assert VisitUpTo(f, 2) == [f[0]] + Visit(f, 1);
    assert Walk(f) == [f[0]] + CodeRun(f[0] as int + 1, f[2] as int) + [f[2]];
  }

  /** `/[0-9]/`: the literal `0`, the range `1..8` strictly inside, the literal `9`. */
  lemma DigitRangeScenario()
    ensures Extracted(DigitRangeText) == Digits
  {
    DigitRangeScan();
    DigitRangeWalk();
    CodeRunNoDup(Unit('0') as int, Unit('9') as int + 1);
    SingleClassExtracted(DigitRangeText, DigitRangeText[1..6]);
  }

  lemma NestedOpenScan()
    ensures Matches(NestedText) == [NestedText]
  {
    var p := NestedText;
    FirstCloseIs(p, 1, 4);
    assert MatchSpansFrom(p, 5) == [];
    assert MatchSpansFrom(p, 0) == [Span(0, 4)];
    assert p[0..5] == p;
  }

  lemma NestedOpenWalk()
    ensures Walk(Inner(NestedText)) == [Unit('a'), OpenBracket, Unit('b')]
  {
    var f := Inner(NestedText);
    assert f == [Unit('a'), OpenBracket, Unit('b')];
    assert Visit(f, 0) == [f[0]] && Visit(f, 1) == [f[1]] && Visit(f, 2) == [f[2]];
    assert VisitUpTo(f, 1) == [f[0]];
    assert VisitUpTo(f, 2) == [f[0], f[1]];
  }

  /** In `[a[b]` the match ends at the first `]` and the inner `[` is a literal. */
  lemma NestedOpenScenario()
    ensures Matches(NestedText) == [NestedText]
    ensures Extracted(NestedText) == [Unit('a'), OpenBracket, Unit('b')]
  {
    NestedOpenScan();
    NestedOpenWalk();
    SingleClassExtracted(NestedText, NestedText);
  }

  /** `/[]a]/`: `[]` is no class, and what follows it holds no `[`; nothing is supported. */
  lemma EmptyClassScenario()
    ensures Extracted(EmptyClassText) == []
  {
    var p := EmptyClassText;
    EmptyClassSkipped(p, 1);
    NoOpenNoSpans(p, 3);
    assert MatchSpansFrom(p, 0) == [];
    NoBackslashNoShorthand(p);
    EscapeUnitsInOrder(p);
    assert Contributions(p) == [];
  }

  lemma CaretScan()
    ensures Matches(CaretText) == [CaretText[1..7]]
  {
    var p := CaretText;
    FirstCloseIs(p, 2, 6);
    NoOpenNoSpans(p, 7);
    assert MatchSpansFrom(p, 0) == [Span(1, 6)];
  }

  lemma CaretWalk()
    ensures Walk(Inner(CaretText[1..7])) == [Caret, Unit('a'), Unit('b'), Unit('c')]
  {
    var m := CaretText[1..7];
    assert m == [CaretText[1], CaretText[2], CaretText[3], CaretText[4], CaretText[5], CaretText[6]];
    var f := Inner(m);
    assert f == [Caret, Unit('a'), Hyphen, Unit('c')];
    assert Visit(f, 0) == [f[0]] && Visit(f, 1) == [f[1]] && Visit(f, 3) == [f[3]];
    assert Visit(f, 2) == CodeRun(f[1] as int + 1, f[3] as int) == [Unit('b')];
    assert VisitUpTo(f, 1) == [f[0]];
    assert VisitUpTo(f, 2) == [f[0], f[1]];
    assert VisitUpTo(f, 3) == [f[0], f[1], Unit('b')];
  }

  /** `/[^a-c]/`: the caret is kept as a literal in front of the range. */
  lemma CaretScenario()
    ensures Extracted(CaretText) == [Caret, Unit('a'), Unit('b'), Unit('c')]
  {
    CaretScan();
    CaretWalk();
    SingleClassExtracted(CaretText, CaretText[1..7]);
  }

  /** The regex text `/^[0-9]{3}-[0-9]{4}$/`: two digit classes around a separator. */
  const SeparatorPatternText: Text := [
    Slash, Caret, OpenBracket, Unit('0'), Hyphen, Unit('9'), CloseBracket, Unit('{'), Unit('3'), Unit('}'),
    Hyphen, OpenBracket, Unit('0'), Hyphen, Unit('9'), CloseBracket, Unit('{'), Unit('4'), Unit('}'), Unit('$'), Slash
  ]

  lemma SeparatorTailScan()
    ensures MatchSpansFrom(SeparatorPatternText, 7) == [Span(11, 15)]
  {
    var p := SeparatorPatternText;
    FirstCloseIs(p, 12, 15);
    NoOpenNoSpans(p, 16);
    assert MatchSpansFrom(p, 11) == [Span(11, 15)];
    assert MatchSpansFrom(p, 10) == MatchSpansFrom(p, 11);
    assert MatchSpansFrom(p, 9) == MatchSpansFrom(p, 10);
    assert MatchSpansFrom(p, 8) == MatchSpansFrom(p, 9);
  }

  lemma SeparatorScan()
    ensures Matches(SeparatorPatternText) == [DigitRangeText[1..6], DigitRangeText[1..6]]
  {
    var p := SeparatorPatternText;
    FirstCloseIs(p, 3, 6);
    SeparatorTailScan();
    assert MatchSpansFrom(p, 2) == [Span(2, 6), Span(11, 15)];
    assert MatchSpansFrom(p, 0) == MatchSpansFrom(p, 2);
    SeparatorClasses();
  }

  lemma SeparatorClasses()
    ensures SeparatorPatternText[2..7] == DigitRangeText[1..6]
    ensures SeparatorPatternText[11..16] == DigitRangeText[1..6]
  {
    var p := SeparatorPatternText;
    var m := DigitRangeText[1..6];
    assert m == [DigitRangeText[1], DigitRangeText[2], DigitRangeText[3], DigitRangeText[4], DigitRangeText[5]];
    assert p[2..7] == [p[2], p[3], p[4], p[5], p[6]];
    assert p[11..16] == [p[11], p[12], p[13], p[14], p[15]];
  }

  lemma SeparatorNoBackslash()
    ensures Backslash !in SeparatorPatternText
  {
    var p := SeparatorPatternText;
    forall k | 0 <= k < |p| ensures p[k] != Backslash {
    }
  }

  /** Adding codes the set already holds changes nothing. */
  lemma {:induction false} AddAllPresent(s: Text, xs: Text)
    requires forall x :: x in xs ==> x in s
    ensures AddAll(s, xs) == s
    decreases |xs|
  {
    if xs != [] {
      var init := xs[..|xs| - 1];
      assert forall x :: x in init ==> x in xs;
      AddAllPresent(s, init);
      assert xs[|xs| - 1] in xs;
    }
  }

  /**
    `/^[0-9]{3}-[0-9]{4}$/`: the set is the ten digits, listed once; the `-`
    between the classes is no class character and is not supported.
   */
  lemma SeparatorScenario()
    ensures Extracted(SeparatorPatternText) == Digits
    ensures Hyphen !in Extracted(SeparatorPatternText)
  {
    var p := SeparatorPatternText;
    var m := DigitRangeText[1..6];
    SeparatorScan();
    DigitRangeWalk();
    assert [m, m][..1] == [m] && [m][..0] == [];
    assert ClassUnits([m]) == Digits;
    assert ClassUnits([m, m]) == Digits + Digits;
    SeparatorNoBackslash();
    NoBackslashNoShorthand(p);
    EscapeUnitsInOrder(p);
    assert Contributions(p) == Digits + Digits;
    AddAllConcat([], Digits, Digits);
    CodeRunNoDup(Unit('0') as int, Unit('9') as int + 1);
    AddAllDistinct(Digits);
    AddAllPresent(Digits, Digits);
  }
}
