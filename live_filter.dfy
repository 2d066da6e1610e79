/**
  The live filter of validtion.js: per input, the supported characters of its
  `data-exp` pattern are extracted once into a cache, and every `keyup`
  removes from the input's value whatever falls outside that set, flashing
  an error when it removes something.
 */
module LiveFilter {
  import opened Utf16
  import CharacterSet

  datatype Option<T> = None | Some(value: T)

  /**
    `value.match(/[^supported]/g)`: the characters of `value` outside
    `supported`, in order (empty where JavaScript gives `null`).
   */
  function Invalid(supported: Text, value: Text): (r: Text)
    ensures |r| <= |value|
    ensures forall k :: 0 <= k < |r| ==> r[k] !in supported
  {
    if value == [] then []
    else (if value[0] in supported then [] else [value[0]]) + Invalid(supported, value[1..])
  }

  /** `value.replace(/[^supported]/g, '')`: the value without the characters outside `supported`. */
  function Strip(supported: Text, value: Text): (r: Text)
    ensures |r| <= |value|
    ensures forall k :: 0 <= k < |r| ==> r[k] in supported
  {
    if value == [] then []
    else (if value[0] in supported then [value[0]] else []) + Strip(supported, value[1..])
  }

  /** The match reports exactly the characters of the value that the set lacks. */
  lemma {:induction false} InvalidMembers(supported: Text, value: Text)
    ensures forall c :: c in Invalid(supported, value) <==> c in value && c !in supported
    decreases |value|
  {
    if value != [] {
      InvalidMembers(supported, value[1..]);
      assert forall c :: c in value <==> c == value[0] || c in value[1..];
    }
  }

  /** The filtered value holds exactly the characters of the value that the set holds. */
  lemma {:induction false} StripMembers(supported: Text, value: Text)
    ensures forall c :: c in Strip(supported, value) <==> c in value && c in supported
    decreases |value|
  {
    if value != [] {
      StripMembers(supported, value[1..]);
      assert forall c :: c in value <==> c == value[0] || c in value[1..];
    }
  }

  /** `a` is `b` with some characters deleted, the rest in their order. */
  ghost predicate Subsequence(a: Text, b: Text)
    decreases |b|
  {
    if a == [] then true
    else if b == [] then false
    else (a[0] == b[0] && Subsequence(a[1..], b[1..])) || Subsequence(a, b[1..])
  }

  /** The filtered value keeps the order of what it keeps. */
  lemma {:induction false} StripSubsequence(supported: Text, value: Text)
    ensures Subsequence(Strip(supported, value), value)
    decreases |value|
  {
    if value != [] {
      StripSubsequence(supported, value[1..]);
      var rest := Strip(supported, value[1..]);
      if value[0] in supported {
        assert Strip(supported, value) == [value[0]] + rest;
        assert ([value[0]] + rest)[1..] == rest;
      } else {
        assert Strip(supported, value) == rest;
        if rest != [] {
          assert Subsequence(rest, value[1..]);
        }
      }
    }
  }

  /**
    Exactly the characters outside the set are removed: each supported
    character keeps all its occurrences, each other character loses all of them.
   */
  lemma {:induction false} StripCounts(supported: Text, value: Text, c: CodeUnit)
    ensures multiset(Strip(supported, value))[c] == if c in supported then multiset(value)[c] else 0
    decreases |value|
  {
    if value != [] {
      StripCounts(supported, value[1..], c);
      assert value == [value[0]] + value[1..];
      assert multiset(value) == multiset([value[0]]) + multiset(value[1..]);
    }
  }

  /** What the filter keeps and what the match reports partition the value. */
  lemma {:induction false} StripInvalidPartition(supported: Text, value: Text)
    ensures |Strip(supported, value)| + |Invalid(supported, value)| == |value|
    decreases |value|
  {
    if value != [] {
      StripInvalidPartition(supported, value[1..]);
    }
  }

  /** Filtering changes nothing exactly when every character is supported. */
  lemma {:induction false} StripUnchangedIff(supported: Text, value: Text)
    ensures Strip(supported, value) == value <==> forall c :: c in value ==> c in supported
    decreases |value|
  {
    if value != [] {
      StripUnchangedIff(supported, value[1..]);
      StripMembers(supported, value);
      assert value == [value[0]] + value[1..];
      assert forall c :: c in value <==> c == value[0] || c in value[1..];
      if value[0] !in supported {
        assert |Strip(supported, value)| < |value|;
      }
    }
  }

  /** The match finds nothing exactly when every character is supported. */
  lemma {:induction false} InvalidEmptyIff(supported: Text, value: Text)
    ensures Invalid(supported, value) == [] <==> forall c :: c in value ==> c in supported
    decreases |value|
  {
    if value != [] {
      InvalidEmptyIff(supported, value[1..]);
      assert forall c :: c in value <==> c == value[0] || c in value[1..];
    }
  }

  /** Filtering twice is filtering once. */
  lemma StripIdempotent(supported: Text, value: Text)
    ensures Strip(supported, Strip(supported, value)) == Strip(supported, value)
  {
    StripMembers(supported, value);
    StripUnchangedIff(supported, Strip(supported, value));
  }

  /** The filter works character by character: it distributes over concatenation. */
  lemma {:induction false} StripConcat(supported: Text, a: Text, b: Text)
    ensures Strip(supported, a + b) == Strip(supported, a) + Strip(supported, b)
    decreases |a|
  {
    if a != [] {
      assert (a + b)[0] == a[0];
      assert (a + b)[1..] == a[1..] + b;
      StripConcat(supported, a[1..], b);
    } else {
      assert a + b == b;
    }
  }

  /** What one `keyup` leaves in the input, and whether it called `flash_error`. */
  datatype KeyUp = KeyUp(value: Text, flashed: bool)

  /**
    The body of the `keyup` listener for the cached set `cached` (`None` when
    the cache has no entry): with a non-empty set, remove the unsupported
    characters and flash when there were any; otherwise leave the value alone.
   */
  function Filter(cached: Option<Text>, value: Text): (r: KeyUp)
    ensures cached.None? || cached.value == [] ==> r == KeyUp(value, false)
    ensures cached.Some? && cached.value != [] ==> r.value == Strip(cached.value, value)
    ensures r.flashed <==> cached.Some? && cached.value != [] && exists c :: c in value && c !in cached.value
    ensures r.flashed <==> r.value != value
  {
    if cached.None? || cached.value == [] then KeyUp(value, false)
    else
      InvalidEmptyIff(cached.value, value);
      StripUnchangedIff(cached.value, value);
      if Invalid(cached.value, value) != [] then KeyUp(Strip(cached.value, value), true)
      else KeyUp(value, false)
  }

  /** A non-empty set and at least one character outside it: the value is filtered and the error flashed. */
  lemma FilterFlashes(supported: Text, value: Text)
    requires supported != [] && Invalid(supported, value) != []
    ensures Filter(Some(supported), value) == KeyUp(Strip(supported, value), true)
  {
  }

  /** After one `keyup` every character of the value is supported. */
  lemma FilterSupported(cached: Option<Text>, value: Text)
    requires cached.Some? && cached.value != []
    ensures forall c :: c in Filter(cached, value).value ==> c in cached.value
  {
    StripMembers(cached.value, value);
  }

  /** A second `keyup` on the filtered value changes nothing and flashes nothing. */
  lemma FilterSettles(cached: Option<Text>, value: Text)
    ensures Filter(cached, Filter(cached, value).value) == KeyUp(Filter(cached, value).value, false)
  {
    if cached.Some? && cached.value != [] {
      StripIdempotent(cached.value, value);
    }
  }

  /**
    Typing one more character into a value that is already clean: a supported
    character stays and nothing flashes; an unsupported one is removed again
    and the error flashes.
   */
  lemma TypeOneMore(supported: Text, clean: Text, c: CodeUnit)
    requires supported != [] && forall x :: x in clean ==> x in supported
    ensures Filter(Some(supported), clean + [c])
      == if c in supported then KeyUp(clean + [c], false) else KeyUp(clean, true)
  {
    StripConcat(supported, clean, [c]);
    StripUnchangedIff(supported, clean);
    assert [c][1..] == [];
    assert c in clean + [c];
  }

  /** The value `12x3` typed into a field. */
  const TypedValue: Text := [Unit('1'), Unit('2'), Unit('x'), Unit('3')]

  /** Only the `x` of `12x3` lies outside the ten digits. */
  lemma StripDigitsScenario()
    ensures Strip(CharacterSet.Digits, TypedValue) == [Unit('1'), Unit('2'), Unit('3')]
    ensures Invalid(CharacterSet.Digits, TypedValue) == [Unit('x')]
  {
    var v := TypedValue;
    var d := CharacterSet.Digits;
    assert v[0] in d && v[1] in d && v[2] !in d && v[3] in d;
    assert v[1..][1..][1..][1..] == [];
    assert Strip(d, v[1..][1..][1..]) == [v[3]];
    assert Strip(d, v[1..][1..]) == [v[3]];
    assert Strip(d, v[1..]) == [v[1], v[3]];
    assert Invalid(d, v[1..][1..]) == [v[2]];
  }

  /** A digits-only set turns `12x3` into `123` and flashes. */
  lemma FilterDigitsScenario()
    ensures Filter(Some(CharacterSet.Digits), TypedValue) == KeyUp([Unit('1'), Unit('2'), Unit('3')], true)
  {
    StripDigitsScenario();
    assert |CharacterSet.Digits| == 10;
    FilterFlashes(CharacterSet.Digits, TypedValue);
  }

  /** The pattern `/^\d+$/` supports the digits, so typing `12x3` leaves `123` and flashes. */
  lemma DigitFieldScenario()
    ensures Filter(Some(CharacterSet.Extracted(CharacterSet.DigitPatternText)), TypedValue)
      == KeyUp([Unit('1'), Unit('2'), Unit('3')], true)
  {
    CharacterSet.DigitPatternScenario();
    FilterDigitsScenario();
  }

  /** The value `12a3-45b6` typed into a field. */
  const SeparatedValue: Text :=
    [Unit('1'), Unit('2'), Unit('a'), Unit('3'), Unit('-'), Unit('4'), Unit('5'), Unit('b'), Unit('6')]

  /** A piece made only of supported characters passes unchanged. */
  lemma StripKeeps(supported: Text, piece: Text)
    requires forall c :: c in piece ==> c in supported
    ensures Strip(supported, piece) == piece
  {
    StripUnchangedIff(supported, piece);
  }

  /** A supported run followed by one unsupported character filters to the run. */
  lemma StripRunThenDrop(supported: Text, prefix: Text, kept: Text, run: Text, x: CodeUnit)
    requires Strip(supported, prefix) == kept
    requires forall c :: c in run ==> c in supported
    requires x !in supported
    ensures Strip(supported, prefix + run + [x]) == kept + run
  {
    StripKeeps(supported, run);
    StripConcat(supported, prefix, run);
    StripConcat(supported, prefix + run, [x]);
    assert [x][1..] == [];
  }

  /** The letters and the `-` of `12a3-45b6` lie outside the digits; only the digits stay. */
  lemma StripSeparatedScenario(d: Text)
    requires forall c :: c in d <==> CharacterSet.IsDigit(c)
    ensures Strip(d, SeparatedValue) == [Unit('1'), Unit('2'), Unit('3'), Unit('4'), Unit('5'), Unit('6')]
  {
    var v := SeparatedValue;
    StripRunThenDrop(d, [], [], [v[0], v[1]], v[2]);
    assert [] + [v[0], v[1]] + [v[2]] == v[..3];
    StripRunThenDrop(d, v[..3], [v[0], v[1]], [v[3]], v[4]);
    assert v[..3] + [v[3]] + [v[4]] == v[..5];
    StripRunThenDrop(d, v[..5], [v[0], v[1]] + [v[3]], [v[5], v[6]], v[7]);
    assert v[..5] + [v[5], v[6]] + [v[7]] == v[..8];
    StripKeeps(d, [v[8]]);
    StripConcat(d, v[..8], [v[8]]);
    assert v[..8] + [v[8]] == v;
  }

  /**
    The pattern `/^[0-9]{3}-[0-9]{4}$/` supports the digits only, so typing
    `12a3-45b6` leaves `123456`: the separator the pattern demands is removed too.
   */
  lemma SeparatorFieldScenario()
    ensures Filter(Some(CharacterSet.Extracted(CharacterSet.SeparatorPatternText)), SeparatedValue)
      == KeyUp([Unit('1'), Unit('2'), Unit('3'), Unit('4'), Unit('5'), Unit('6')], true)
  {
    CharacterSet.SeparatorScenario();
    StripSeparatedScenario(CharacterSet.Digits);
    assert |CharacterSet.Digits| == 10;
    assert SeparatedValue[2] in SeparatedValue && SeparatedValue[2] !in CharacterSet.Digits;
    InvalidEmptyIff(CharacterSet.Digits, SeparatedValue);
    FilterFlashes(CharacterSet.Digits, SeparatedValue);
  }

  /** `regexCache.get(key)`. */
  function Lookup(cache: map<Text, Text>, key: Text): (r: Option<Text>)
    ensures r.Some? <==> key in cache
    ensures r.Some? ==> r.value == cache[key]
  {
    if key in cache then Some(cache[key]) else None
  }

  /**
    One `<input>` that has a `data-exp` attribute and no `disableOnPress`:
    its pattern, its cache (created per input), and its current value.
   */
  class ValidatedInput {
    /** The `data-exp` attribute. */
    const exp: Text
    /** The text of `new RegExp(exp)`, `None` when that constructor throws. */
    ghost const compiled: Option<Text>
    /** Pattern to supported characters. */
    var regexCache: map<Text, Text>
    /** `input.value`. */
    var value: Text

    /** The cache holds the extracted set of a non-empty, valid pattern, and nothing else. */
    ghost predicate Valid()
      reads this
    {
      regexCache == if exp != [] && compiled.Some? then map[exp := CharacterSet.Extracted(compiled.value)] else map[]
    }

    /**
      The setup run for the input: a fresh cache, then, for a non-empty
      pattern that compiles, its characters extracted and stored once.
     */
    constructor (exp: Text, compiled: Option<Text>, value: Text)
      ensures this.exp == exp && this.compiled == compiled && this.value == value
      ensures Valid()
      ensures Lookup(regexCache, exp)
        == if exp != [] && compiled.Some? then Some(CharacterSet.Extracted(compiled.value)) else None
    {
      this.exp := exp;
      this.compiled := compiled;
      this.value := value;
      var cache: map<Text, Text> := map[];
      if exp != [] {
        if exp !in cache {
          match compiled
          case Some(text) =>
            var chars := CharacterSet.ExtractCharacters(text);
            cache := cache[exp := chars];
          case None =>
        }
      }
      regexCache := cache;
    }

    /**
      Every later `regexCache.get(exp)` reads back the set stored at setup:
      the extracted characters of a non-empty pattern that compiles, and no
      entry otherwise.
     */
    lemma ReadBack()
      requires Valid()
      ensures Lookup(regexCache, exp)
        == if exp != [] && compiled.Some? then Some(CharacterSet.Extracted(compiled.value)) else None
    {
    }

    /**
      The `keyup` listener: look the set up, remove what it does not
      support, and report whether `flash_error` was called. The cache is
      left as it is.
     */
    method OnKeyUp() returns (flashed: bool)
      requires Valid()
      modifies this`value
      ensures Valid()
      ensures value == Filter(Lookup(regexCache, exp), old(value)).value
      ensures flashed == Filter(Lookup(regexCache, exp), old(value)).flashed
      ensures regexCache == old(regexCache)
    {
      var supportedChars := Lookup(regexCache, exp);
      flashed := false;
      if supportedChars.Some? && supportedChars.value != [] {
        var invalidChars := Invalid(supportedChars.value, value);
        if invalidChars != [] {
          flashed := true;
          value := Strip(supportedChars.value, value);
        }
      }
    }
  }
}
