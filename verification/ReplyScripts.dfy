/** Which characters of a reply are shown, said about the whole reply at once. */
module ReplyScripts {
  import opened Basics
  import opened CodeUnits

  /** A code point, or a surrogate with no partner. */
  type Char = int

  /** What the Unicode tables say, and the two sentences that stand in for an empty reply. */
  datatype Unicode = Unicode(
    alwaysKept: Char -> bool,
    droppable: Char -> bool,
    script: Char -> Option<nat>,
    letter: Char -> bool,
    payload: Char -> bool,
    han: Char -> bool,
    latin: Char -> bool,
    fallbackZh: Text,
    fallbackEn: Text)

  predicate IsHigh(u: int) { 0xD800 <= u <= 0xDBFF }

  predicate IsLow(u: int) { 0xDC00 <= u <= 0xDFFF }

  function Combine(high: CodeUnit, low: CodeUnit): Char {
    0x10000 + (high - 0xD800) * 0x400 + (low - 0xDC00)
  }

  function Decode(t: Text): seq<Char> {
    if t == [] then []
    else if |t| > 1 && IsHigh(t[0]) && IsLow(t[1]) then [Combine(t[0], t[1])] + Decode(t[2..])
    else [t[0]] + Decode(t[1..])
  }

  function UnitsOf(c: Char): Text {
    if c < 0x10000 then [c] else [0xD800 + (c - 0x10000) / 0x400, 0xDC00 + (c - 0x10000) % 0x400]
  }

  function Encode(cs: seq<Char>): Text {
    if cs == [] then [] else Encode(cs[..|cs| - 1]) + UnitsOf(cs[|cs| - 1])
  }

  /** The facts about the tables that matter: letters can be dropped and count as content, spaces stay. */
  ghost predicate Sane(u: Unicode) {
    && u.alwaysKept(SPACE) && !u.letter(SPACE)
    && (forall c :: u.letter(c) ==> u.droppable(c) && u.payload(c))
    && (forall c :: IsHigh(c) || IsLow(c) ==> !u.droppable(c) && !u.payload(c))
    && (forall c :: c in Decode(u.fallbackZh) + Decode(u.fallbackEn) ==> u.alwaysKept(c))
    && HasPayload(u, u.fallbackZh) && HasPayload(u, u.fallbackEn)
    && IsUtf16(u.fallbackZh) && IsUtf16(u.fallbackEn)
  }

  predicate Dropped(u: Unicode, allowed: set<nat>, c: Char) {
    !u.alwaysKept(c) && !(u.script(c).Some? && u.script(c).value in allowed) && u.droppable(c)
  }

  predicate HasPayload(u: Unicode, t: Text) {
    exists i :: 0 <= i < |Decode(t)| && u.payload(Decode(t)[i])
  }

  predicate AnyLetter(u: Unicode, cs: seq<Char>) {
    exists i :: 0 <= i < |cs| && u.letter(cs[i])
  }

  predicate EndsWithSpace(cs: seq<Char>) {
    cs != [] && cs[|cs| - 1] == SPACE
  }

  /** What is kept, and whether the next spaces are to be swallowed. */
  datatype Cleaned = Cleaned(kept: seq<Char>, skip: bool)

  function CleanStep(u: Unicode, allowed: set<nat>, s: Cleaned, c: Char): Cleaned {
    if Dropped(u, allowed, c) then Cleaned(s.kept, EndsWithSpace(s.kept))
    else if s.skip && c == SPACE then s
    else Cleaned(s.kept + [c], false)
  }

  function CleanAll(u: Unicode, allowed: set<nat>, cs: seq<Char>): Cleaned {
    if cs == [] then Cleaned([], false)
    else CleanStep(u, allowed, CleanAll(u, allowed, cs[..|cs| - 1]), cs[|cs| - 1])
  }

  /** A reply without the characters nobody asked for, nor the double spaces they would leave. */
  function Strip(u: Unicode, allowed: set<nat>, t: Text): Text {
    Encode(CleanAll(u, allowed, Decode(t)).kept)
  }

  function CountOf(p: Char -> bool, cs: seq<Char>): nat {
    if cs == [] then 0 else CountOf(p, cs[..|cs| - 1]) + if p(cs[|cs| - 1]) then 1 else 0
  }

  /** English for a user who wrote more Latin than Han letters. */
  function FallbackFor(u: Unicode, userText: Text): Text {
    var cs := Decode(userText);
    if CountOf(c => !u.han(c) && u.latin(c), cs) > CountOf(u.han, cs) then u.fallbackEn else u.fallbackZh
  }

  /** What the user is shown for a whole reply. */
  function Present(u: Unicode, allowed: set<nat>, userText: Text, t: Text): Text {
    var stripped := Strip(u, allowed, t);
    if !HasPayload(u, stripped) && AnyLetter(u, Decode(t)) then FallbackFor(u, userText) else stripped
  }

  /** The scripts, beyond those always kept, that a text uses. */
  function ScriptsIn(u: Unicode, cs: seq<Char>): set<nat> {
    set c | c in cs && !u.alwaysKept(c) && u.droppable(c) && u.script(c).Some? :: u.script(c).value
  }

  // ---------------------------------------------------------------- decoding in pieces

  /** A cut between two pieces that does not part a surrogate pair. */
  predicate CleanCut(a: Text, b: Text) {
    a == [] || b == [] || !IsHigh(a[|a| - 1]) || !IsLow(b[0])
  }

  function FirstUnits(t: Text): (n: nat)
    requires t != []
    ensures 1 <= n <= 2 && n <= |t|
  {
    if |t| > 1 && IsHigh(t[0]) && IsLow(t[1]) then 2 else 1
  }

  function Head(t: Text): Char
    requires t != []
  {
    if FirstUnits(t) == 2 then Combine(t[0], t[1]) else t[0]
  }

  lemma DecodeHead(t: Text)
    requires t != []
    ensures Decode(t) == [Head(t)] + Decode(t[FirstUnits(t)..])
  {
  }

  lemma HeadStays(a: Text, b: Text)
    requires a != [] && CleanCut(a, b)
    ensures FirstUnits(a + b) == FirstUnits(a) && Head(a + b) == Head(a)
    ensures (a + b)[FirstUnits(a)..] == a[FirstUnits(a)..] + b
    ensures CleanCut(a[FirstUnits(a)..], b)
  {
  }

  lemma {:induction false} DecodeAppend(a: Text, b: Text)
    requires CleanCut(a, b)
    ensures Decode(a + b) == Decode(a) + Decode(b)
    decreases |a|
  {
    if a == [] {
      assert a + b == b;
    } else {
      hide Decode, Head, FirstUnits, CleanCut;
      var rest := a[FirstUnits(a)..];
      HeadStays(a, b);
      DecodeHead(a + b);
      DecodeHead(a);
      DecodeAppend(rest, b);
    }
  }

  lemma {:induction false} EncodeAppend(a: seq<Char>, b: seq<Char>)
    ensures Encode(a + b) == Encode(a) + Encode(b)
    decreases |b|
  {
    if b == [] {
      assert a + b == a;
    } else {
      assert (a + b)[..|a + b| - 1] == a + b[..|b| - 1];
      EncodeAppend(a, b[..|b| - 1]);
    }
  }

  /** The last unit written tells whether the last character kept is a space. */
  lemma EndsAlike(cs: seq<Char>)
    ensures EndsWithSpace(cs) <==> Encode(cs) != [] && Encode(cs)[|Encode(cs)| - 1] == SPACE
  {
  }

  /** Content already there stays whatever is appended. */
  lemma {:induction false} PayloadGrows(u: Unicode, a: Text, b: Text)
    requires Sane(u) && HasPayload(u, a)
    ensures HasPayload(u, a + b)
    decreases |a|
  {
    var i :| 0 <= i < |Decode(a)| && u.payload(Decode(a)[i]);
    assert (a + b)[1..] == a[1..] + b;
    if |a| > 1 && IsHigh(a[0]) && IsLow(a[1]) {
      assert (a + b)[2..] == a[2..] + b;
      if i > 0 {
        assert Decode(a[2..])[i - 1] == Decode(a)[i];
        PayloadGrows(u, a[2..], b);
        var j :| 0 <= j < |Decode(a[2..] + b)| && u.payload(Decode(a[2..] + b)[j]);
        assert Decode(a + b)[j + 1] == Decode(a[2..] + b)[j];
      } else {
        assert Decode(a + b)[0] == Decode(a)[0];
      }
    } else if i > 0 {
      assert Decode(a[1..])[i - 1] == Decode(a)[i];
      PayloadGrows(u, a[1..], b);
      if |a| > 1 {
        var j :| 0 <= j < |Decode(a[1..] + b)| && u.payload(Decode(a[1..] + b)[j]);
        assert Decode(a + b)[j + 1] == Decode(a[1..] + b)[j];
      }
    } else {
      assert !IsHigh(a[0]);
      assert Decode(a + b)[0] == a[0];
    }
  }

  lemma PayloadKept(u: Unicode, a: Text, b: Text)
    requires Sane(u) && a <= b && HasPayload(u, a)
    ensures HasPayload(u, b)
  {
    PayloadGrows(u, a, b[|a|..]);
    assert a + b[|a|..] == b;
  }

  // ---------------------------------------------------------------- what is kept

  lemma {:induction false} NothingDroppedStays(u: Unicode, allowed: set<nat>, cs: seq<Char>)
    ensures forall c :: c in CleanAll(u, allowed, cs).kept ==> c in cs && !Dropped(u, allowed, c)
  {
    if cs != [] {
      NothingDroppedStays(u, allowed, cs[..|cs| - 1]);
      assert forall c :: c in cs <==> c in cs[..|cs| - 1] || c == cs[|cs| - 1];
    }
  }

  function Without(cs: seq<Char>, p: Char -> bool): seq<Char> {
    if cs == [] then []
    else
      var front := Without(cs[..|cs| - 1], p);
      if p(cs[|cs| - 1]) then front else front + [cs[|cs| - 1]]
  }

  lemma {:induction false} WithoutNothing(cs: seq<Char>, p: Char -> bool)
    requires forall i :: 0 <= i < |cs| ==> !p(cs[i])
    ensures Without(cs, p) == cs
  {
    if cs != [] {
      WithoutNothing(cs[..|cs| - 1], p);
    }
  }

  /** Only dropped characters and spaces go: everything else stays, in order. */
  lemma {:induction false} OnlyDroppedAndSpacesGo(u: Unicode, allowed: set<nat>, cs: seq<Char>)
    ensures Without(CleanAll(u, allowed, cs).kept, c => c == SPACE)
         == Without(cs, c => c == SPACE || Dropped(u, allowed, c))
  {
    if cs != [] {
      OnlyDroppedAndSpacesGo(u, allowed, cs[..|cs| - 1]);
      var before := CleanAll(u, allowed, cs[..|cs| - 1]).kept;
      var c := cs[|cs| - 1];
      assert (before + [c])[..|before|] == before;
    }
  }

  /** Where the characters that are kept stood. */
  function Places(u: Unicode, allowed: set<nat>, cs: seq<Char>): (r: seq<nat>)
    ensures forall x :: 0 <= x < |r| ==> r[x] < |cs|
  {
    if cs == [] then []
    else
      var front := Places(u, allowed, cs[..|cs| - 1]);
      var before, after := CleanAll(u, allowed, cs[..|cs| - 1]), CleanAll(u, allowed, cs);
      if |before.kept| < |after.kept| then front + [|cs| - 1] else front
  }

  /** Something was dropped between these two places. */
  predicate GapBetween(u: Unicode, allowed: set<nat>, cs: seq<Char>, p: nat, i: nat)
    requires i <= |cs|
  {
    exists d :: p < d < i && Dropped(u, allowed, cs[d])
  }

  /** The space at `i` would double one: the last character kept before it is a space, with a gap in between. */
  ghost predicate Doubles(u: Unicode, allowed: set<nat>, cs: seq<Char>, places: seq<nat>, i: nat)
    requires i < |cs| && forall x :: 0 <= x < |places| ==> places[x] < |cs|
  {
    cs[i] == SPACE && exists x: nat :: DoublesAt(u, allowed, cs, places, i, x)
  }

  ghost predicate DoublesAt(u: Unicode, allowed: set<nat>, cs: seq<Char>, places: seq<nat>, i: nat, x: nat)
    requires i < |cs| && forall y :: 0 <= y < |places| ==> places[y] < |cs|
  {
    && x < |places| && places[x] < i && (x + 1 < |places| ==> i <= places[x + 1])
    && cs[places[x]] == SPACE && GapBetween(u, allowed, cs, places[x], i)
  }

  /** What is known after every character: what is kept, where it stood, and whether a gap follows a space. */
  ghost predicate KeptSoFar(u: Unicode, allowed: set<nat>, cs: seq<Char>) {
    var s, places := CleanAll(u, allowed, cs), Places(u, allowed, cs);
    InPlace(cs, s.kept, places) && (s.skip <==> SpaceAndGap(u, allowed, cs, places))
  }

  ghost predicate InPlace(cs: seq<Char>, kept: seq<Char>, places: seq<nat>) {
    && |places| == |kept|
    && (forall x :: 0 <= x < |places| ==> places[x] < |cs| && kept[x] == cs[places[x]])
    && (forall x, y :: 0 <= x < y < |places| ==> places[x] < places[y])
  }

  /** The last character kept is a space, and something was dropped since. */
  predicate SpaceAndGap(u: Unicode, allowed: set<nat>, cs: seq<Char>, places: seq<nat>)
    requires forall x :: 0 <= x < |places| ==> places[x] < |cs|
  {
    places != [] && var p := places[|places| - 1]; cs[p] == SPACE && GapBetween(u, allowed, cs, p, |cs|)
  }

  lemma GapGrows(u: Unicode, allowed: set<nat>, cs: seq<Char>, p: nat)
    requires cs != [] && p < |cs| - 1
    ensures GapBetween(u, allowed, cs, p, |cs|)
        <==> GapBetween(u, allowed, cs[..|cs| - 1], p, |cs| - 1) || Dropped(u, allowed, cs[|cs| - 1])
  {
    var front := cs[..|cs| - 1];
    if GapBetween(u, allowed, front, p, |front|) {
      var d :| p < d < |front| && Dropped(u, allowed, front[d]);
      assert cs[d] == front[d];
    }
    if GapBetween(u, allowed, cs, p, |cs|) {
      var d :| p < d < |cs| && Dropped(u, allowed, cs[d]);
      if d < |front| {
        assert front[d] == cs[d];
      }
    }
  }

  lemma {:induction false} KeptIs(u: Unicode, allowed: set<nat>, cs: seq<Char>)
    ensures KeptSoFar(u, allowed, cs)
  {
    if cs != [] {
      KeptIs(u, allowed, cs[..|cs| - 1]);
      KeptGrows(u, allowed, cs);
    }
  }

  lemma KeptGrows(u: Unicode, allowed: set<nat>, cs: seq<Char>)
    requires cs != [] && KeptSoFar(u, allowed, cs[..|cs| - 1])
    ensures KeptSoFar(u, allowed, cs)
  {
    hide Dropped, Places, CleanAll, SpaceAndGap, InPlace;
    var front := cs[..|cs| - 1];
    var before, places := CleanAll(u, allowed, front), Places(u, allowed, front);
    CleanGrows(u, allowed, cs);
    PlacesGrow(u, allowed, cs);
    InPlaceGrows(cs, before.kept, places);
    SpaceAndGapGrows(u, allowed, cs, before.kept, places);
  }

  lemma InPlaceGrows(cs: seq<Char>, kept: seq<Char>, places: seq<nat>)
    requires cs != [] && InPlace(cs[..|cs| - 1], kept, places)
    ensures InPlace(cs, kept, places)
    ensures InPlace(cs, kept + [cs[|cs| - 1]], places + [|cs| - 1])
  {
    assert forall x :: 0 <= x < |places| ==> cs[places[x]] == cs[..|cs| - 1][places[x]];
  }

  lemma SpaceAndGapGrows(u: Unicode, allowed: set<nat>, cs: seq<Char>, kept: seq<Char>, places: seq<nat>)
    requires cs != [] && InPlace(cs[..|cs| - 1], kept, places)
    ensures InPlace(cs, kept, places)
    ensures !SpaceAndGap(u, allowed, cs, places + [|cs| - 1])
    ensures SpaceAndGap(u, allowed, cs[..|cs| - 1], places) ==> EndsWithSpace(kept)
    ensures SpaceAndGap(u, allowed, cs, places)
        <==> (EndsWithSpace(kept) && Dropped(u, allowed, cs[|cs| - 1]))
             || SpaceAndGap(u, allowed, cs[..|cs| - 1], places)
  {
    hide Dropped, GapBetween;
    InPlaceGrows(cs, kept, places);
    NoGapYet(u, allowed, cs, |cs| - 1);
    if places != [] {
      GapGrows(u, allowed, cs, places[|places| - 1]);
    }
  }

  lemma CleanGrows(u: Unicode, allowed: set<nat>, cs: seq<Char>)
    requires cs != []
    ensures CleanAll(u, allowed, cs) == CleanStep(u, allowed, CleanAll(u, allowed, cs[..|cs| - 1]), cs[|cs| - 1])
  {
  }

  /** A character goes exactly if it is dropped or a space that would double one. */
  lemma {:induction false} KeptExactlyWhen(u: Unicode, allowed: set<nat>, cs: seq<Char>, i: nat)
    requires i < |cs|
    ensures i in Places(u, allowed, cs)
        <==> !Dropped(u, allowed, cs[i]) && !Doubles(u, allowed, cs, Places(u, allowed, cs), i)
  {
    hide Dropped, GapBetween, CleanAll, CleanStep, Doubles;
    var last := |cs| - 1;
    var front := cs[..last];
    KeptIs(u, allowed, cs);
    KeptIs(u, allowed, front);
    PlacesGrow(u, allowed, cs);
    if i < last {
      KeptExactlyWhen(u, allowed, front, i);
      DoublesAlike(u, allowed, cs, i);
    } else {
      LastGoesExactlyWhen(u, allowed, cs);
    }
  }

  lemma PlacesGrow(u: Unicode, allowed: set<nat>, cs: seq<Char>)
    requires cs != []
    ensures var front := cs[..|cs| - 1];
      var s, c := CleanAll(u, allowed, front), cs[|cs| - 1];
      Places(u, allowed, cs)
      == if Dropped(u, allowed, c) || (s.skip && c == SPACE) then Places(u, allowed, front)
         else Places(u, allowed, front) + [|cs| - 1]
  {
    hide Dropped;
  }

  /** What follows has no say in whether a space doubles one. */
  lemma DoublesAlike(u: Unicode, allowed: set<nat>, cs: seq<Char>, i: nat)
    requires i < |cs| - 1 && KeptSoFar(u, allowed, cs) && KeptSoFar(u, allowed, cs[..|cs| - 1])
    ensures Doubles(u, allowed, cs, Places(u, allowed, cs), i)
        <==> Doubles(u, allowed, cs[..|cs| - 1], Places(u, allowed, cs[..|cs| - 1]), i)
  {
    hide Dropped, CleanAll, Places, GapBetween, KeptSoFar;
    var front := cs[..|cs| - 1];
    var a, b := Places(u, allowed, cs), Places(u, allowed, front);
    PlacesGrow(u, allowed, cs);
    assert a == b || a == b + [|cs| - 1];
    forall x: nat ensures DoublesAt(u, allowed, cs, a, i, x) <==> DoublesAt(u, allowed, front, b, i, x) {
      if x < |b| {
        GapAlike(u, allowed, cs, b[x], i);
      }
    }
  }

  lemma GapAlike(u: Unicode, allowed: set<nat>, cs: seq<Char>, p: nat, i: nat)
    requires i < |cs| - 1
    ensures GapBetween(u, allowed, cs, p, i) <==> GapBetween(u, allowed, cs[..|cs| - 1], p, i)
  {
    var front := cs[..|cs| - 1];
    assert forall d :: 0 <= d < i ==> front[d] == cs[d];
  }

  lemma LastGoesExactlyWhen(u: Unicode, allowed: set<nat>, cs: seq<Char>)
    requires cs != [] && KeptSoFar(u, allowed, cs[..|cs| - 1])
    ensures |cs| - 1 in Places(u, allowed, cs)
        <==> !Dropped(u, allowed, cs[|cs| - 1]) && !Doubles(u, allowed, cs, Places(u, allowed, cs), |cs| - 1)
  {
    hide Dropped, CleanAll, Places, SpaceAndGap, Doubles, KeptSoFar;
    var last := |cs| - 1;
    var front := cs[..last];
    var a, b := Places(u, allowed, cs), Places(u, allowed, front);
    PlacesGrow(u, allowed, cs);
    SkipIs(u, allowed, front);
    assert a == b + [last] ==> a[|b|] == last;
    LastDoublesExactlyWhen(u, allowed, cs, a, b);
  }

  lemma LastDoublesExactlyWhen(u: Unicode, allowed: set<nat>, cs: seq<Char>, a: seq<nat>, b: seq<nat>)
    requires cs != [] && (a == b || a == b + [|cs| - 1])
    requires forall x :: 0 <= x < |b| ==> b[x] < |cs| - 1
    requires forall x :: 0 <= x < |a| ==> a[x] < |cs|
    ensures Doubles(u, allowed, cs, a, |cs| - 1)
        <==> cs[|cs| - 1] == SPACE && SpaceAndGap(u, allowed, cs[..|cs| - 1], b)
  {
    hide Dropped, GapBetween;
    var last := |cs| - 1;
    forall x: nat ensures DoublesAt(u, allowed, cs, a, last, x) ==> b != [] && x == |b| - 1 {
    }
    if b != [] {
      GapToEnd(u, allowed, cs, b[|b| - 1]);
      assert SpaceAndGap(u, allowed, cs[..last], b) <==> DoublesAt(u, allowed, cs, a, last, |b| - 1);
    }
  }

  lemma SkipIs(u: Unicode, allowed: set<nat>, cs: seq<Char>)
    requires KeptSoFar(u, allowed, cs)
    ensures CleanAll(u, allowed, cs).skip <==> SpaceAndGap(u, allowed, cs, Places(u, allowed, cs))
  {
  }

  lemma GapToEnd(u: Unicode, allowed: set<nat>, cs: seq<Char>, p: nat)
    requires cs != []
    ensures GapBetween(u, allowed, cs, p, |cs| - 1) <==> GapBetween(u, allowed, cs[..|cs| - 1], p, |cs| - 1)
  {
    var front := cs[..|cs| - 1];
    assert forall d :: 0 <= d < |front| ==> front[d] == cs[d];
  }

  lemma NoGapYet(u: Unicode, allowed: set<nat>, cs: seq<Char>, p: nat)
    requires p + 1 == |cs|
    ensures !GapBetween(u, allowed, cs, p, |cs|)
  {
  }

  lemma {:induction false} AllKept(u: Unicode, allowed: set<nat>, cs: seq<Char>)
    requires forall c :: c in cs ==> !Dropped(u, allowed, c)
    ensures CleanAll(u, allowed, cs) == Cleaned(cs, false)
  {
    hide Dropped, EndsWithSpace;
    if cs != [] {
      var front, last := cs[..|cs| - 1], cs[|cs| - 1];
      assert cs == front + [last];
      assert forall c :: c in front ==> c in cs;
      AllKept(u, allowed, front);
      assert last in cs && !Dropped(u, allowed, last);
      assert CleanAll(u, allowed, cs) == CleanStep(u, allowed, Cleaned(front, false), last);
    }
  }

  /** Nothing the user wrote in a known script is dropped from the reply to it. */
  lemma OwnScriptsStay(u: Unicode, userText: Text, more: set<nat>, c: Char)
    requires c in Decode(userText) && u.script(c).Some?
    ensures !Dropped(u, ScriptsIn(u, Decode(userText)) + more, c)
  {
  }

  // ---------------------------------------------------------------- cleaning twice

  /** Text as it comes in: sixteen bits a unit. */
  predicate IsUtf16(t: Text) {
    forall i :: 0 <= i < |t| ==> 0 <= t[i] < 0x10000
  }

  predicate IsChar(c: Char) {
    0 <= c < 0x110000
  }

  lemma {:induction false} DecodedAreChars(t: Text)
    requires IsUtf16(t)
    ensures forall i :: 0 <= i < |Decode(t)| ==> IsChar(Decode(t)[i])
    decreases |t|
  {
    if t != [] {
      DecodedAreChars(t[FirstUnits(t)..]);
    }
  }

  lemma EncodeOne(c: Char, rest: seq<Char>)
    ensures Encode([c] + rest) == UnitsOf(c) + Encode(rest)
  {
    EncodeAppend([c], rest);
    assert [c][..0] == [];
  }

  lemma PairUnits(high: CodeUnit, low: CodeUnit)
    requires IsHigh(high) && IsLow(low)
    ensures UnitsOf(Combine(high, low)) == [high, low]
  {
    var c := Combine(high, low) - 0x10000;
    assert c == (high - 0xD800) * 0x400 + (low - 0xDC00);
    assert c / 0x400 == high - 0xD800;
  }

  /** Writing decoded text out again gives the text. */
  lemma {:induction false} EncodeDecode(t: Text)
    requires IsUtf16(t)
    ensures Encode(Decode(t)) == t
    decreases |t|
  {
    if t != [] {
      hide Decode, Encode, Head, UnitsOf;
      var rest := t[FirstUnits(t)..];
      DecodeHead(t);
      EncodeDecode(rest);
      EncodeOne(Head(t), Decode(rest));
      HeadUnits(t);
    }
  }

  lemma HeadUnits(t: Text)
    requires t != [] && IsUtf16(t)
    ensures UnitsOf(Head(t)) + t[FirstUnits(t)..] == t
  {
    if FirstUnits(t) == 2 {
      PairUnits(t[0], t[1]);
    }
  }

  lemma {:induction false} EncodedIsUtf16(cs: seq<Char>)
    requires forall c :: c in cs ==> IsChar(c)
    ensures IsUtf16(Encode(cs))
  {
    if cs != [] {
      EncodedIsUtf16(cs[..|cs| - 1]);
      assert cs[|cs| - 1] in cs;
    }
  }

  /** Two lone halves side by side read as one character the next time. */
  predicate Rejoins(u: Unicode, allowed: set<nat>, cs: seq<Char>, k: nat) {
    k + 1 < |cs| && IsHigh(cs[k]) && IsLow(cs[k + 1]) && Dropped(u, allowed, Combine(cs[k], cs[k + 1]))
  }

  lemma DecodeEncoded(c: Char, rest: seq<Char>)
    requires IsChar(c)
    ensures !IsHigh(c) || Encode(rest) == [] || !IsLow(Encode(rest)[0]) ==>
              Decode(Encode([c] + rest)) == [c] + Decode(Encode(rest))
  {
    EncodeOne(c, rest);
    var t := UnitsOf(c) + Encode(rest);
    if c < 0x10000 {
      assert t[1..] == Encode(rest);
    } else {
      assert t[2..] == Encode(rest);
      assert Combine(t[0], t[1]) == c;
    }
  }

  lemma {:induction false} FirstUnitOf(cs: seq<Char>)
    requires cs != [] && IsChar(cs[0])
    ensures Encode(cs) != [] && (IsLow(Encode(cs)[0]) <==> IsLow(cs[0]))
    ensures IsLow(cs[0]) ==> Encode(cs)[0] == cs[0]
  {
    assert cs == [cs[0]] + cs[1..];
    EncodeOne(cs[0], cs[1..]);
  }

  /** Reading back what was kept, something is dropped exactly where two halves rejoin to it. */
  lemma {:induction false} RereadDropsExactlyWhen(u: Unicode, allowed: set<nat>, cs: seq<Char>)
    requires forall c :: c in cs ==> IsChar(c) && !Dropped(u, allowed, c)
    ensures (exists c :: c in Decode(Encode(cs)) && Dropped(u, allowed, c))
        <==> exists k: nat :: Rejoins(u, allowed, cs, k)
    decreases |cs|
  {
    if cs != [] {
      var c, rest := cs[0], cs[1..];
      assert cs == [c] + rest;
      assert c in cs;
      DecodeEncoded(c, rest);
      if rest != [] {
        assert rest[0] in cs;
        FirstUnitOf(rest);
      }
      if IsHigh(c) && rest != [] && IsLow(rest[0]) {
        RereadsPair(u, allowed, cs);
      } else {
        RereadDropsExactlyWhen(u, allowed, rest);
        assert Decode(Encode(cs)) == [c] + Decode(Encode(rest));
        if k: nat :| Rejoins(u, allowed, cs, k) {
          assert Rejoins(u, allowed, rest, k - 1);
        }
        if k: nat :| Rejoins(u, allowed, rest, k) {
          assert Rejoins(u, allowed, cs, k + 1);
        }
      }
    }
  }

  lemma DecodePair(high: CodeUnit, low: CodeUnit, more: Text)
    requires IsHigh(high) && IsLow(low)
    ensures Decode([high, low] + more) == [Combine(high, low)] + Decode(more)
  {
    assert ([high, low] + more)[2..] == more;
  }

  lemma PairRereads(cs: seq<Char>)
    requires |cs| >= 2 && IsHigh(cs[0]) && IsLow(cs[1])
    ensures Decode(Encode(cs)) == [Combine(cs[0], cs[1])] + Decode(Encode(cs[2..]))
  {
    hide Encode, Decode;
    var rest := cs[2..];
    assert cs == [cs[0]] + ([cs[1]] + rest);
    EncodeOne(cs[0], [cs[1]] + rest);
    EncodeOne(cs[1], rest);
    assert Encode(cs) == [cs[0], cs[1]] + Encode(rest);
    DecodePair(cs[0], cs[1], Encode(rest));
  }

  lemma RereadsPair(u: Unicode, allowed: set<nat>, cs: seq<Char>)
    requires |cs| >= 2 && IsHigh(cs[0]) && IsLow(cs[1])
    requires forall c :: c in cs ==> IsChar(c) && !Dropped(u, allowed, c)
    ensures (exists c :: c in Decode(Encode(cs)) && Dropped(u, allowed, c))
        <==> exists k: nat :: Rejoins(u, allowed, cs, k)
    decreases |cs|, 0
  {
    hide Decode, Encode, Dropped;
    var rest := cs[2..];
    PairRereads(cs);
    assert forall c :: c in rest ==> c in cs;
    RereadDropsExactlyWhen(u, allowed, rest);
    if k: nat :| Rejoins(u, allowed, cs, k) {
      if k > 1 {
        assert Rejoins(u, allowed, rest, k - 2);
      } else {
        assert Combine(cs[0], cs[1]) in Decode(Encode(cs));
      }
    }
    if k: nat :| Rejoins(u, allowed, rest, k) {
      assert Rejoins(u, allowed, cs, k + 2);
    }
    if Dropped(u, allowed, Combine(cs[0], cs[1])) {
      assert Rejoins(u, allowed, cs, 0);
    }
  }

  // ---------------------------------------------------------------- the same, seen on the reply as it came

  /** A lone first half and a lone second half with only dropped characters between them. */
  predicate Gap(u: Unicode, allowed: set<nat>, cs: seq<Char>, i: nat, j: nat) {
    && i < j < |cs| && IsHigh(cs[i]) && IsLow(cs[j])
    && forall m :: i < m < j ==> Dropped(u, allowed, cs[m])
  }

  /** A kept character other than a space stays the last one until something else is kept. */
  lemma {:induction false} LastKept(u: Unicode, allowed: set<nat>, cs: seq<Char>) returns (i: nat)
    requires Sane(u)
    requires CleanAll(u, allowed, cs).kept != [] && !EndsWithSpace(CleanAll(u, allowed, cs).kept)
    ensures !CleanAll(u, allowed, cs).skip
    ensures var kept := CleanAll(u, allowed, cs).kept;
            && i < |cs| && cs[i] == kept[|kept| - 1] && !Dropped(u, allowed, cs[i])
            && forall m :: i < m < |cs| ==> Dropped(u, allowed, cs[m])
  {
    var front := cs[..|cs| - 1];
    if Dropped(u, allowed, cs[|cs| - 1]) {
      i := LastKept(u, allowed, front);
    } else {
      var before := CleanAll(u, allowed, front);
      if before.skip && cs[|cs| - 1] == SPACE {
        i := LastKept(u, allowed, front);
        assert false;
      } else {
        i := |cs| - 1;
      }
    }
  }

  /** After a lone first half and only dropped characters, that half is what was kept last. */
  lemma {:induction false} HalfIsLast(u: Unicode, allowed: set<nat>, cs: seq<Char>, i: nat)
    requires Sane(u) && i < |cs| && IsHigh(cs[i])
    requires forall m :: i < m < |cs| ==> Dropped(u, allowed, cs[m])
    ensures CleanAll(u, allowed, cs).kept != [] && CleanAll(u, allowed, cs).kept[|CleanAll(u, allowed, cs).kept| - 1] == cs[i]
    ensures !CleanAll(u, allowed, cs).skip
  {
    if i < |cs| - 1 {
      HalfIsLast(u, allowed, cs[..|cs| - 1], i);
    }
  }

  ghost predicate SomeGap(u: Unicode, allowed: set<nat>, later: set<nat>, cs: seq<Char>) {
    exists i: nat, j: nat :: Gap(u, allowed, cs, i, j) && Dropped(u, later, Combine(cs[i], cs[j]))
  }

  ghost predicate SomeRejoin(u: Unicode, later: set<nat>, kept: seq<Char>) {
    exists k: nat :: Rejoins(u, later, kept, k)
  }

  lemma GapStays(u: Unicode, allowed: set<nat>, later: set<nat>, front: seq<Char>, c: Char)
    ensures SomeGap(u, allowed, later, front) ==> SomeGap(u, allowed, later, front + [c])
  {
    var cs := front + [c];
    if i: nat, j: nat :| Gap(u, allowed, front, i, j) && Dropped(u, later, Combine(front[i], front[j])) {
      assert Gap(u, allowed, cs, i, j);
      assert cs[i] == front[i] && cs[j] == front[j];
    }
  }

  lemma RejoinStays(u: Unicode, later: set<nat>, kept: seq<Char>, c: Char)
    ensures SomeRejoin(u, later, kept) ==> SomeRejoin(u, later, kept + [c])
  {
    if k: nat :| Rejoins(u, later, kept, k) {
      assert Rejoins(u, later, kept + [c], k);
    }
  }

  /** A gap that ends with the newest character. */
  lemma NewGapRejoins(u: Unicode, allowed: set<nat>, later: set<nat>, front: seq<Char>, c: Char)
    requires Sane(u) && SomeGap(u, allowed, later, front + [c]) && !SomeGap(u, allowed, later, front)
    ensures SomeRejoin(u, later, CleanAll(u, allowed, front + [c]).kept)
  {
    var cs := front + [c];
    var i: nat, j: nat :| Gap(u, allowed, cs, i, j) && Dropped(u, later, Combine(cs[i], cs[j]));
    assert forall m :: 0 <= m < |front| ==> front[m] == cs[m];
    assert j < |front| ==> Gap(u, allowed, front, i, j);
    assert cs[..|cs| - 1] == front;
    HalfIsLast(u, allowed, front, i);
    var kept := CleanAll(u, allowed, cs).kept;
    assert Rejoins(u, later, kept, |kept| - 2);
  }

  /** A second half that joins up with what was kept last. */
  lemma NewRejoinGaps(u: Unicode, allowed: set<nat>, later: set<nat>, front: seq<Char>, c: Char)
    requires Sane(u) && !Dropped(u, allowed, c)
    requires SomeRejoin(u, later, CleanAll(u, allowed, front).kept + [c]) && !SomeRejoin(u, later, CleanAll(u, allowed, front).kept)
    ensures SomeGap(u, allowed, later, front + [c])
  {
    var before := CleanAll(u, allowed, front).kept;
    var k: nat :| Rejoins(u, later, before + [c], k);
    assert k + 1 < |before| <==> Rejoins(u, later, before, k);
    var i := LastKept(u, allowed, front);
    assert Gap(u, allowed, front + [c], i, |front|);
  }

  /** Halves that are neighbours among what is kept are those with a gap between them. */
  lemma {:induction false} GapsRejoin(u: Unicode, allowed: set<nat>, later: set<nat>, cs: seq<Char>)
    requires Sane(u)
    ensures SomeGap(u, allowed, later, cs) <==> SomeRejoin(u, later, CleanAll(u, allowed, cs).kept)
  {
    hide SomeGap, SomeRejoin, Sane;
    if cs == [] {
      NoGaps(u, allowed, later);
    } else {
      var front := cs[..|cs| - 1];
      var c := cs[|cs| - 1];
      assert cs == front + [c];
      GapsRejoin(u, allowed, later, front);
      GapStays(u, allowed, later, front, c);
      var before := CleanAll(u, allowed, front).kept;
      RejoinStays(u, later, before, c);
      if SomeGap(u, allowed, later, cs) && !SomeGap(u, allowed, later, front) {
        NewGapRejoins(u, allowed, later, front, c);
      }
      if SomeRejoin(u, later, CleanAll(u, allowed, cs).kept) && !SomeRejoin(u, later, before) {
        NewRejoinGaps(u, allowed, later, front, c);
      }
    }
  }

  lemma NoGaps(u: Unicode, allowed: set<nat>, later: set<nat>)
    ensures !SomeGap(u, allowed, later, []) && !SomeRejoin(u, later, [])
  {
  }

  lemma {:induction false} CleaningShortens(u: Unicode, allowed: set<nat>, cs: seq<Char>)
    ensures |Encode(CleanAll(u, allowed, cs).kept)| <= |Encode(cs)|
    ensures (exists c :: c in cs && Dropped(u, allowed, c)) ==> |Encode(CleanAll(u, allowed, cs).kept)| < |Encode(cs)|
  {
    hide Dropped, UnitsOf, EndsWithSpace;
    if cs != [] {
      var front, last := cs[..|cs| - 1], cs[|cs| - 1];
      CleaningShortens(u, allowed, front);
      EncodeOneMore(CleanAll(u, allowed, front).kept, last);
      EncodeOneMore(front, last);
      assert cs == front + [last];
      hide Encode;
      assert forall c :: c in cs <==> c in front || c == last;
    }
  }

  lemma EncodeOneMore(cs: seq<Char>, c: Char)
    ensures |Encode(cs + [c])| == |Encode(cs)| + |UnitsOf(c)| && 0 < |UnitsOf(c)|
  {
  }

  lemma KeptAreChars(u: Unicode, allowed: set<nat>, t: Text)
    requires IsUtf16(t)
    ensures var kept := CleanAll(u, allowed, Decode(t)).kept;
            && (forall c :: c in kept ==> IsChar(c) && !Dropped(u, allowed, c))
            && IsUtf16(Encode(kept))
  {
    DecodedAreChars(t);
    NothingDroppedStays(u, allowed, Decode(t));
    EncodedIsUtf16(CleanAll(u, allowed, Decode(t)).kept);
  }

  /** Does a later cleaning find anything to drop in what this one lets through? */
  lemma RereadClean(u: Unicode, allowed: set<nat>, later: set<nat>, t: Text)
    requires Sane(u) && IsUtf16(t) && allowed <= later
    ensures (exists c :: c in Decode(Strip(u, allowed, t)) && Dropped(u, later, c))
        <==> SomeGap(u, allowed, later, Decode(t))
  {
    KeptAreChars(u, allowed, t);
    RereadDropsExactlyWhen(u, later, CleanAll(u, allowed, Decode(t)).kept);
    GapsRejoin(u, allowed, later, Decode(t));
  }

  /**
   * Cleaning a cleaned reply again, with the same or more scripts allowed, changes nothing, exactly
   * when no two lone halves of a character to be dropped stand around dropped characters only.
   * Well-formed text has no lone halves.
   */
  lemma StripStableExactlyWhen(u: Unicode, allowed: set<nat>, later: set<nat>, t: Text)
    requires Sane(u) && IsUtf16(t) && allowed <= later
    ensures Strip(u, later, Strip(u, allowed, t)) == Strip(u, allowed, t) <==> !SomeGap(u, allowed, later, Decode(t))
  {
    hide SomeGap, Sane;
    var out := Strip(u, allowed, t);
    KeptAreChars(u, allowed, t);
    RereadClean(u, allowed, later, t);
    EncodeDecode(out);
    if SomeGap(u, allowed, later, Decode(t)) {
      CleaningShortens(u, later, Decode(out));
    } else {
      AllKept(u, later, Decode(out));
    }
  }

  lemma FallbackStays(u: Unicode, later: set<nat>, userText: Text, laterText: Text)
    requires Sane(u)
    ensures var fallback := FallbackFor(u, userText);
            && Present(u, later, laterText, fallback) == fallback
            && forall c :: c in Decode(fallback) ==> !Dropped(u, later, c)
  {
    var fallback := FallbackFor(u, userText);
    assert forall c :: c in Decode(fallback) ==> c in Decode(u.fallbackZh) + Decode(u.fallbackEn);
    AllKept(u, later, Decode(fallback));
    EncodeDecode(fallback);
  }

  /** The whole presentation is stable under the same condition, and always when it was the fallback. */
  lemma PresentStableExactlyWhen(u: Unicode, allowed: set<nat>, later: set<nat>, userText: Text, laterText: Text,
      t: Text)
    requires Sane(u) && IsUtf16(t) && allowed <= later
    ensures Present(u, later, laterText, Present(u, allowed, userText, t)) == Present(u, allowed, userText, t)
        <==> (!SomeGap(u, allowed, later, Decode(t))
              || (!HasPayload(u, Strip(u, allowed, t)) && AnyLetter(u, Decode(t))))
  {
    hide SomeGap, Strip, Decode, Dropped;
    StripStableExactlyWhen(u, allowed, later, t);
    RereadClean(u, allowed, later, t);
    FallbackStays(u, later, userText, laterText);
    FallbackStays(u, later, laterText, laterText);
    LettersAreContent(u, Strip(u, allowed, t));
  }

  /** What is shown of a reply that was broken off is stable under the first condition alone. */
  lemma StrippedStableExactlyWhen(u: Unicode, allowed: set<nat>, later: set<nat>, laterText: Text, t: Text)
    requires Sane(u) && IsUtf16(t) && allowed <= later
    ensures Present(u, later, laterText, Strip(u, allowed, t)) == Strip(u, allowed, t)
        <==> !SomeGap(u, allowed, later, Decode(t))
  {
    hide SomeGap, Strip, Decode, Dropped;
    StripStableExactlyWhen(u, allowed, later, t);
    RereadClean(u, allowed, later, t);
    FallbackStays(u, later, laterText, laterText);
    LettersAreContent(u, Strip(u, allowed, t));
  }

  /** A reply broken off is shown otherwise than one that ended exactly when nothing but dropped letters had content. */
  lemma BrokenOffDiffersExactlyWhen(u: Unicode, allowed: set<nat>, userText: Text, t: Text)
    requires Sane(u)
    ensures Strip(u, allowed, t) != Present(u, allowed, userText, t)
        <==> !HasPayload(u, Strip(u, allowed, t)) && AnyLetter(u, Decode(t))
  {
    hide Strip, Decode;
    assert HasPayload(u, FallbackFor(u, userText));
  }

  lemma LettersAreContent(u: Unicode, t: Text)
    requires Sane(u)
    ensures AnyLetter(u, Decode(t)) ==> HasPayload(u, t)
  {
    if i :| 0 <= i < |Decode(t)| && u.letter(Decode(t)[i]) {
      var c: Char := Decode(t)[i];
      assert u.letter(c) && u.payload(c);
    }
  }

  /** Text without lone halves has no such gap. */
  lemma WellFormedHasNoGap(u: Unicode, allowed: set<nat>, later: set<nat>, t: Text)
    requires forall c :: c in Decode(t) ==> !IsHigh(c)
    ensures !SomeGap(u, allowed, later, Decode(t))
  {
  }

  // ---------------------------------------------------------------- a reply that does not settle at once

  const ALEF: Char := 0x5D0
  const LINEAR_B: Char := 0x10000
  const HAN_SORRY: Char := 0x62B1

  /**
   * Tables that know a Hebrew letter, a letter beyond the first plane, and one Han letter, the fallback in
   * both languages.
   */
  const SMALL_TABLES: Unicode := Unicode(
    c => c == SPACE || c == HAN_SORRY,
    c => c == ALEF || c == LINEAR_B || c == HAN_SORRY,
    c => None,
    c => c == ALEF || c == LINEAR_B || c == HAN_SORRY,
    c => c == ALEF || c == LINEAR_B || c == HAN_SORRY,
    c => c == HAN_SORRY,
    c => false,
    [HAN_SORRY],
    [HAN_SORRY])

  /** A Hebrew letter between the two halves of a letter that is to be dropped as well. */
  const HALVES: Text := [0xD800, ALEF, 0xDC00]

  lemma SmallTablesAreSane()
    ensures Sane(SMALL_TABLES)
  {
    assert Decode([HAN_SORRY]) == [HAN_SORRY] by {
      assert [HAN_SORRY][1..] == [];
    }
    assert SMALL_TABLES.payload(Decode([HAN_SORRY])[0]);
  }

  /** The first cleaning lets the two halves join, the second drops what they make; and the presentation changes too. */
  lemma HalvesRejoin()
    ensures Sane(SMALL_TABLES) && IsUtf16(HALVES) && SomeGap(SMALL_TABLES, {}, {}, Decode(HALVES))
    ensures Strip(SMALL_TABLES, {}, HALVES) == [0xD800, 0xDC00]
    ensures Strip(SMALL_TABLES, {}, [0xD800, 0xDC00]) == []
    ensures Present(SMALL_TABLES, {}, [], HALVES) == [0xD800, 0xDC00] != Present(SMALL_TABLES, {}, [], [0xD800, 0xDC00])
  {
    SmallTablesAreSane();
    hide Sane;
    DecodesHalves();
    var first := CleanStep(SMALL_TABLES, {}, Cleaned([], false), 0xD800);
    var second := CleanStep(SMALL_TABLES, {}, first, ALEF);
    assert CleanStep(SMALL_TABLES, {}, second, 0xDC00) == Cleaned([0xD800, 0xDC00], false);
    CleansThree(SMALL_TABLES, 0xD800, ALEF, 0xDC00);
    EncodesHalves();
    CleansOne(SMALL_TABLES, LINEAR_B);
    assert Gap(SMALL_TABLES, {}, HALVES, 0, 2);
    assert SMALL_TABLES.payload(Decode([0xD800, 0xDC00])[0]) && SMALL_TABLES.letter(Decode([0xD800, 0xDC00])[0]);
    assert Decode([]) == [];
  }

  lemma DecodesHalves()
    ensures Decode(HALVES) == HALVES && Decode([0xD800, 0xDC00]) == [LINEAR_B]
  {
    assert HALVES[1..] == [ALEF, 0xDC00] && [ALEF, 0xDC00][1..] == [0xDC00] && [0xDC00][1..] == [];
    assert Decode([0xDC00]) == [0xDC00];
    assert Decode([ALEF, 0xDC00]) == [ALEF, 0xDC00];
    assert [0xD800, 0xDC00][2..] == [];
  }

  lemma CleansThree(u: Unicode, a: Char, b: Char, c: Char)
    ensures CleanAll(u, {}, [a, b, c])
         == CleanStep(u, {}, CleanStep(u, {}, CleanStep(u, {}, Cleaned([], false), a), b), c)
  {
    hide CleanStep;
    assert [a, b, c][..2] == [a, b] && [a, b][..1] == [a] && [a][..0] == [];
    CleansOne(u, a);
    assert CleanAll(u, {}, [a, b]) == CleanStep(u, {}, CleanAll(u, {}, [a]), b);
  }

  lemma CleansOne(u: Unicode, a: Char)
    ensures CleanAll(u, {}, [a]) == CleanStep(u, {}, Cleaned([], false), a)
  {
    assert [a][..0] == [];
  }

  lemma EncodesHalves()
    ensures Encode([0xD800, 0xDC00]) == [0xD800, 0xDC00]
  {
    assert [0xD800, 0xDC00][..1] == [0xD800] && [0xD800][..0] == [];
    assert Encode([0xD800]) == [0xD800];
  }
}
