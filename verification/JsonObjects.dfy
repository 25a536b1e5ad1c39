/**
 * Objects with text members written as JSON: keys in order, quotes and backslashes escaped; reading stops at
 * the end of the object.
 */
module JsonObjects {
  import opened Basics

  type Members = map<string, string>

  /** An object is the texts of its members in a row: a key, its value, the next key, ... */
  type Texts = seq<string>

  // ---------------------------------------------------------------- texts

  predicate Special(unit: char) {
    unit == '"' || unit == '\\'
  }

  function Escaped(s: string): string {
    if s == "" then ""
    else (if Special(s[0]) then ['\\', s[0]] else [s[0]]) + Escaped(s[1..])
  }

  /** The text up to the closing quote, and what follows it. */
  function ParseText(b: string): (r: Option<(string, string)>)
    ensures r.Some? ==> |r.value.1| < |b|
  {
    if b == "" then None
    else if b[0] == '"' then Some(("", b[1..]))
    else
      var skip := if b[0] == '\\' then 1 else 0;
      if |b| <= skip then None
      else
        var rest := ParseText(b[skip + 1..]);
        if rest.None? then None else Some(([b[skip]] + rest.value.0, rest.value.1))
  }

  lemma EscapedStep(unit: char, b: string)
    requires Special(unit)
    ensures ParseText(['\\', unit] + b) == AfterUnit(unit, ParseText(b))
  {
    assert (['\\', unit] + b)[2..] == b;
  }

  lemma UnitStep(unit: char, b: string)
    requires !Special(unit)
    ensures ParseText([unit] + b) == AfterUnit(unit, ParseText(b))
  {
    assert ([unit] + b)[1..] == b;
  }

  function AfterUnit(unit: char, rest: Option<(string, string)>): Option<(string, string)> {
    if rest.None? then None else Some(([unit] + rest.value.0, rest.value.1))
  }

  lemma QuoteEnds(rest: string)
    ensures ParseText("" + ("\"" + rest)) == Some(("", rest))
  {
    assert ("" + ("\"" + rest))[1..] == rest;
  }

  lemma {:induction false} TextReadsBack(s: string, rest: string)
    ensures ParseText(Escaped(s) + ("\"" + rest)) == Some((s, rest))
  {
    hide ParseText;
    if s == "" {
      QuoteEnds(rest);
    } else {
      var inner := Escaped(s[1..]) + ("\"" + rest);
      TextReadsBack(s[1..], rest);
      assert s == [s[0]] + s[1..];
      if Special(s[0]) {
        assert Escaped(s) + ("\"" + rest) == ['\\', s[0]] + inner;
        EscapedStep(s[0], inner);
      } else {
        assert Escaped(s) + ("\"" + rest) == [s[0]] + inner;
        UnitStep(s[0], inner);
      }
    }
  }

  lemma {:induction false} TextIgnoresMore(b: string, more: string)
    requires ParseText(b).Some?
    ensures ParseText(b + more) == Some((ParseText(b).value.0, ParseText(b).value.1 + more))
  {
    var skip := if b[0] == '\\' then 1 else 0;
    if b[0] == '"' {
      assert (b + more)[1..] == b[1..] + more;
    } else {
      TextIgnoresMore(b[skip + 1..], more);
      assert (b + more)[skip + 1..] == b[skip + 1..] + more;
    }
  }

  function Quoted(s: string): string {
    "\"" + (Escaped(s) + "\"")
  }

  /** A quoted text ends where it ends, whatever follows. */
  lemma QuoteSplits(a: string, b: string, c: string, d: string)
    requires Quoted(a) + b == Quoted(c) + d
    ensures a == c && b == d
  {
    hide ParseText, Escaped;
    TextReadsBack(a, b);
    TextReadsBack(c, d);
    assert (Quoted(a) + b)[1..] == Escaped(a) + ("\"" + b);
    assert (Quoted(c) + d)[1..] == Escaped(c) + ("\"" + d);
  }

  // ---------------------------------------------------------------- objects

  function Between(isKey: bool): string {
    if isKey then ":\"" else ",\""
  }

  /** What follows the opening quote of the first text; every second one is a key, the last one a value. */
  function Written(texts: Texts, isKey: bool): string
    requires texts != []
    decreases |texts|, 1
  {
    Escaped(texts[0]) + ("\"" + After(texts, isKey))
  }

  /** What follows the closing quote of the first text. */
  function After(texts: Texts, isKey: bool): string
    requires texts != []
    decreases |texts|, 0
  {
    if |texts| == 1 then "}" else Between(isKey) + Written(texts[1..], !isKey)
  }

  /** Reads on from the opening quote of a key or a value to the end of the object. */
  function Read(b: string, isKey: bool): (r: Option<Texts>)
    ensures r.Some? ==> r.value != [] && (|r.value| % 2 == 0 <==> isKey)
    decreases |b|, 1
  {
    var first := ParseText(b);
    if first.None? then None else ReadOn(first.value.0, first.value.1, isKey)
  }

  /** The same from the closing quote of `text`. */
  function ReadOn(text: string, b: string, isKey: bool): (r: Option<Texts>)
    ensures r.Some? ==> r.value != [] && (|r.value| % 2 == 0 <==> isKey)
    decreases |b|, 0
  {
    if !isKey && "}" <= b then Some([text])
    else if !(Between(isKey) <= b) then None
    else
      var others := Read(b[2..], !isKey);
      if others.None? then None else Some([text] + others.value)
  }

  /** Of members with the same key the last one counts. */
  function Object(texts: Texts): Members
    requires |texts| % 2 == 0
  {
    if texts == [] then map[] else map[texts[0] := texts[1]] + Object(texts[2..])
  }

  function ObjectText(texts: Texts): string {
    if texts == [] then "{}" else "{\"" + Written(texts, true)
  }

  function ParseObject(b: string): Option<Members> {
    if "{}" <= b then Some(map[])
    else if !("{\"" <= b) then None
    else
      var texts := Read(b[2..], true);
      if texts.None? then None else Some(Object(texts.value))
  }

  /** The last text is a value. */
  predicate Closed(texts: Texts, isKey: bool) {
    texts != [] && (|texts| % 2 == 0 <==> isKey)
  }

  lemma {:induction false} ReadsBack(texts: Texts, isKey: bool)
    requires Closed(texts, isKey)
    ensures Read(Written(texts, isKey), isKey) == Some(texts)
    decreases |texts|
  {
    hide Read, ReadOn, Escaped;
    ReadStep(texts[0], After(texts, isKey), isKey);
    if |texts| == 1 {
      ReadEnd(texts[0]);
      assert texts == [texts[0]];
    } else {
      ReadsBack(texts[1..], !isKey);
      ReadNext(texts[0], isKey, Written(texts[1..], !isKey));
      assert texts == [texts[0]] + texts[1..];
    }
  }

  lemma ReadStep(text: string, rest: string, isKey: bool)
    ensures Read(Escaped(text) + ("\"" + rest), isKey) == ReadOn(text, rest, isKey)
  {
    hide ParseText, Escaped, ReadOn;
    TextReadsBack(text, rest);
  }

  lemma ReadEnd(text: string)
    ensures ReadOn(text, "}", false) == Some([text])
  {
  }

  lemma ReadNext(text: string, isKey: bool, rest: string)
    ensures var others := Read(rest, !isKey);
      ReadOn(text, Between(isKey) + rest, isKey) == if others.None? then None else Some([text] + others.value)
  {
    hide Read, Between;
    BetweenGoes(isKey, rest);
  }

  lemma BetweenGoes(isKey: bool, rest: string)
    ensures Between(isKey) <= Between(isKey) + rest && (Between(isKey) + rest)[2..] == rest
    ensures !("}" <= Between(isKey) + rest)
  {
    assert Between(isKey)[0] == if isKey then ':' else ',';
    assert (Between(isKey) + rest)[0] == Between(isKey)[0];
  }

  /** Texts in any order read back as the object they make. */
  lemma TextsReadBack(texts: Texts)
    requires |texts| % 2 == 0
    ensures ParseObject(ObjectText(texts)) == Some(Object(texts))
  {
    hide Written, Read;
    if texts != [] {
      ReadsBack(texts, true);
      var b := ObjectText(texts);
      assert b[0] == '{' && b[1] == '"' && b[2..] == Written(texts, true);
    }
  }

  lemma {:induction false} ReadIgnoresMore(b: string, isKey: bool, more: string)
    requires Read(b, isKey).Some?
    ensures Read(b + more, isKey) == Read(b, isKey)
    decreases |b|
  {
    hide ParseText;
    TextIgnoresMore(b, more);
    var rest := ParseText(b).value.1;
    if !(!isKey && "}" <= rest) {
      assert (rest + more)[2..] == rest[2..] + more;
      ReadIgnoresMore(rest[2..], !isKey, more);
    }
  }

  /** Reading stops where the object ends. */
  lemma ObjectIgnoresMore(b: string, more: string)
    requires ParseObject(b).Some?
    ensures ParseObject(b + more) == ParseObject(b)
  {
    hide Read;
    if !("{}" <= b) {
      assert (b + more)[2..] == b[2..] + more;
      ReadIgnoresMore(b[2..], true, more);
    }
  }

  lemma {:induction false} ObjectJoins(a: Texts, b: Texts)
    requires |a| % 2 == 0 && |b| % 2 == 0
    ensures |a + b| % 2 == 0 && Object(a + b) == Object(a) + Object(b)
  {
    if a == [] {
      assert a + b == b;
    } else {
      ObjectJoins(a[2..], b);
      assert (a + b)[2..] == a[2..] + b;
      assert (a + b)[0] == a[0] && (a + b)[1] == a[1];
      Merge(map[a[0] := a[1]], Object(a[2..]), Object(b));
    }
  }

  lemma Merge(a: Members, b: Members, c: Members)
    ensures a + (b + c) == (a + b) + c
  {
  }

  /** The text at an even place is this key. */
  predicate IsKeyAt(texts: Texts, i: int, k: string) {
    0 <= i < |texts| && i % 2 == 0 && texts[i] == k
  }

  lemma {:induction false} KeyIn(texts: Texts, k: string)
    requires |texts| % 2 == 0
    ensures k in Object(texts) <==> exists i :: IsKeyAt(texts, i, k)
  {
    if texts != [] {
      KeyIn(texts[2..], k);
      if texts[0] == k {
        assert IsKeyAt(texts, 0, k);
      }
      if i :| IsKeyAt(texts[2..], i, k) {
        assert IsKeyAt(texts, i + 2, k);
      }
      forall i | IsKeyAt(texts, i, k) ensures texts[0] == k || IsKeyAt(texts[2..], i - 2, k) {
      }
    }
  }

  // ---------------------------------------------------------------- keys in order

  /** The order of keys, unit by unit. */
  predicate AtMost(a: string, b: string) {
    a == "" || (b != "" && (a[0] < b[0] || (a[0] == b[0] && AtMost(a[1..], b[1..]))))
  }

  lemma {:induction false} AtMostIsTotal(a: string, b: string)
    ensures AtMost(a, b) || AtMost(b, a)
    ensures AtMost(a, b) && AtMost(b, a) ==> a == b
  {
    if a != "" && b != "" {
      AtMostIsTotal(a[1..], b[1..]);
      assert a == [a[0]] + a[1..] && b == [b[0]] + b[1..];
    }
  }

  lemma {:induction false} AtMostIsTransitive(a: string, b: string, c: string)
    requires AtMost(a, b) && AtMost(b, c)
    ensures AtMost(a, c)
  {
    if a != "" && a[0] == b[0] && b[0] == c[0] {
      AtMostIsTransitive(a[1..], b[1..], c[1..]);
    }
  }

  predicate IsLeast(k: string, keys: set<string>) {
    k in keys && forall j :: j in keys ==> AtMost(k, j)
  }

  lemma {:induction false} LeastExists(keys: set<string>) returns (k: string)
    requires keys != {}
    ensures IsLeast(k, keys)
  {
    hide AtMost;
    var some :| some in keys;
    k := some;
    AtMostIsTotal(some, some);
    if keys != {some} {
      var other := LeastExists(keys - {some});
      AtMostIsTotal(some, other);
      forall j | j in keys && AtMost(some, other) ensures AtMost(some, j) {
        if j != some {
          AtMostIsTransitive(some, other, j);
        }
      }
      if !AtMost(some, other) {
        k := other;
      }
    }
  }

  lemma SomeIsLeast(keys: set<string>)
    requires keys != {}
    ensures exists k :: IsLeast(k, keys)
  {
    var k := LeastExists(keys);
  }

  ghost function Sorted(m: Members): (r: Texts)
    ensures |r| % 2 == 0
    decreases |m|
  {
    if m == map[] then []
    else
      var k := LeastKey(m);
      LeastIsThere(m, k);
      [k, m[k]] + Sorted(m - {k})
  }

  ghost function LeastKey(m: Members): (k: string)
    requires m != map[]
    ensures IsLeast(k, m.Keys)
  {
    assert m.Keys != {};
    SomeIsLeast(m.Keys);
    var k :| IsLeast(k, m.Keys);
    k
  }

  lemma {:induction false} SortedMakes(m: Members)
    ensures Object(Sorted(m)) == m
    decreases |m|
  {
    hide IsLeast;
    if m == map[] {
      assert Sorted(m) == [];
    } else {
      var k := LeastKey(m);
      var rest := m - {k};
      LeastIsThere(m, k);
      SortedMakes(rest);
      assert Sorted(m) == [k, m[k]] + Sorted(rest);
      assert Sorted(m)[2..] == Sorted(rest);
      assert map[k := m[k]] + rest == m;
    }
  }

  lemma LeastIsThere(m: Members, k: string)
    requires IsLeast(k, m.Keys)
    ensures k in m && |m - {k}| < |m|
  {
    assert (m - {k}).Keys == m.Keys - {k};
    assert |m.Keys - {k}| < |m.Keys|;
    assert |m| == |m.Keys| && |m - {k}| == |(m - {k}).Keys|;
  }

  lemma LeastIs(m: Members, k: string)
    requires IsLeast(k, m.Keys)
    ensures m != map[] && LeastKey(m) == k
  {
    AtMostIsTotal(LeastKey(m), k);
  }

  ghost function Encode(m: Members): string {
    ObjectText(Sorted(m))
  }

  lemma EncodeReadsBack(m: Members)
    ensures ParseObject(Encode(m)) == Some(m)
  {
    TextsReadBack(Sorted(m));
    SortedMakes(m);
  }

  // ---------------------------------------------------------------- before and after one key

  ghost function Below(m: Members, k: string): Members {
    map j | j in m && j != k && AtMost(j, k) :: m[j]
  }

  ghost function Above(m: Members, k: string): Members {
    map j | j in m && j != k && !AtMost(j, k) :: m[j]
  }

  /** The members before a key, that member, and the members after it. */
  lemma {:induction false} SortedSplits(m: Members, k: string)
    requires k in m
    ensures Sorted(m) == Sorted(Below(m, k)) + [k, m[k]] + Sorted(Above(m, k))
    decreases |m|
  {
    hide AtMost;
    var l := LeastKey(m);
    LeastIsThere(m, l);
    var below, above := Below(m, k), Above(m, k);
    hide Sorted, IsLeast;
    if l == k {
      LeastSides(m, k);
      assert Sorted(map[]) == [] by { NothingSorted(); }
    } else {
      SortedSplits(m - {l}, k);
      LowerSides(m, l, k);
      SortedStarts(below, l);
    }
    SortedStarts(m, l);
  }

  lemma NothingSorted()
    ensures Sorted(map[]) == []
  {
  }

  lemma SortedStarts(m: Members, l: string)
    requires m != map[] && l == LeastKey(m)
    ensures l in m && Sorted(m) == [l, m[l]] + Sorted(m - {l})
  {
    LeastIsThere(m, l);
  }

  /** Nothing is before the least key. */
  lemma LeastSides(m: Members, k: string)
    requires IsLeast(k, m.Keys)
    ensures Below(m, k) == map[] && Above(m, k) == m - {k}
  {
    hide AtMost;
    forall j | j in m && AtMost(j, k) ensures j == k {
      AtMostIsTotal(j, k);
    }
  }

  /** Another least key is before it. */
  lemma LowerSides(m: Members, l: string, k: string)
    requires IsLeast(l, m.Keys) && k in m && l != k
    ensures Below(m, k) != map[] && LeastKey(Below(m, k)) == l && l in Below(m, k) && Below(m, k)[l] == m[l]
    ensures Below(m, k) - {l} == Below(m - {l}, k) && Above(m, k) == Above(m - {l}, k)
  {
    hide AtMost;
    LeastIs(Below(m, k), l);
  }
}
