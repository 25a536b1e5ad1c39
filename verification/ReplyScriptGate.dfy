/** The loops that clean replies: whole, and as they stream in. */
module ReplyScriptGate {
  import opened CodeUnits
  import opened ReplyScripts

  /** The scripts the user wrote in, collected character by character. */
  method CompileReplyScripts(u: Unicode, userText: Text) returns (names: set<nat>)
    ensures names == ScriptsIn(u, Decode(userText))
  {
    var chars := Decode(userText);
    names := {};
    for i := 0 to |chars|
      invariant names == ScriptsIn(u, chars[..i])
    {
      var c := chars[i];
      assert forall d :: d in chars[..i + 1] <==> d in chars[..i] || d == c;
      if !u.alwaysKept(c) && u.droppable(c) && u.script(c).Some? {
        names := names + {u.script(c).value};
      }
    }
    assert chars[..|chars|] == chars;
  }

  method ReplyFallback(u: Unicode, userText: Text) returns (r: Text)
    ensures r == FallbackFor(u, userText)
  {
    var chars := Decode(userText);
    var han, latin := 0, 0;
    for i := 0 to |chars|
      invariant han == CountOf(u.han, chars[..i]) && latin == CountOf(c => !u.han(c) && u.latin(c), chars[..i])
    {
      assert chars[..i + 1][..i] == chars[..i];
      if u.han(chars[i]) {
        han := han + 1;
      } else if u.latin(chars[i]) {
        latin := latin + 1;
      }
    }
    assert chars[..|chars|] == chars;
    r := if latin > han then u.fallbackEn else u.fallbackZh;
  }

  ghost predicate SoFar(u: Unicode, allowed: set<nat>, chars: seq<Char>, index: nat, s: Cleaned) {
    index <= |chars| && CleanAll(u, allowed, chars[..index]) == s
  }

  lemma OneMore(u: Unicode, allowed: set<nat>, chars: seq<Char>, index: nat, s: Cleaned)
    requires SoFar(u, allowed, chars, index, s) && index < |chars|
    ensures SoFar(u, allowed, chars, index + 1, CleanStep(u, allowed, s, chars[index]))
  {
    assert chars[..index + 1][..index] == chars[..index];
  }

  lemma OneDropped(u: Unicode, allowed: set<nat>, chars: seq<Char>, index: nat, s: Cleaned)
    requires SoFar(u, allowed, chars, index, s) && index < |chars| && Dropped(u, allowed, chars[index])
    ensures SoFar(u, allowed, chars, index + 1, Cleaned(s.kept, EndsWithSpace(s.kept)))
  {
    OneMore(u, allowed, chars, index, s);
  }

  lemma OneSwallowed(u: Unicode, allowed: set<nat>, chars: seq<Char>, index: nat, s: Cleaned)
    requires SoFar(u, allowed, chars, index, s) && index < |chars| && !Dropped(u, allowed, chars[index])
    requires s.skip && chars[index] == SPACE
    ensures SoFar(u, allowed, chars, index + 1, s)
  {
    OneMore(u, allowed, chars, index, s);
  }

  /** Where a space ends what is kept, further ones go, whether they count as dropped or not. */
  lemma OneSpaceLess(u: Unicode, allowed: set<nat>, chars: seq<Char>, index: nat, s: Cleaned)
    requires SoFar(u, allowed, chars, index, s) && index < |chars| && chars[index] == SPACE
    requires s.skip && EndsWithSpace(s.kept)
    ensures SoFar(u, allowed, chars, index + 1, s)
  {
    OneMore(u, allowed, chars, index, s);
  }

  lemma OneKept(u: Unicode, allowed: set<nat>, chars: seq<Char>, index: nat, s: Cleaned)
    requires SoFar(u, allowed, chars, index, s) && index < |chars| && !Dropped(u, allowed, chars[index])
    requires !(s.skip && chars[index] == SPACE)
    ensures SoFar(u, allowed, chars, index + 1, Cleaned(s.kept + [chars[index]], false))
    ensures Encode(s.kept + [chars[index]]) == Encode(s.kept) + UnitsOf(chars[index])
  {
    OneMore(u, allowed, chars, index, s);
  }

  lemma SoFarStart(u: Unicode, allowed: set<nat>, chars: seq<Char>, index: nat, s: Cleaned)
    requires index <= |chars| && CleanAll(u, allowed, chars[..index]) == s
    ensures SoFar(u, allowed, chars, index, s)
  {
  }

  lemma SoFarEnd(u: Unicode, allowed: set<nat>, chars: seq<Char>, s: Cleaned)
    requires SoFar(u, allowed, chars, |chars|, s)
    ensures CleanAll(u, allowed, chars) == s
  {
    assert chars[..|chars|] == chars;
  }

  predicate TextEndsWithSpace(t: Text) {
    t != [] && t[|t| - 1] == SPACE
  }

  /** Skips a run of dropped characters, and the spaces after it when one stands before it. */
  method StripBody(u: Unicode, allowed: set<nat>, text: Text) returns (out: Text)
    ensures out == Strip(u, allowed, text)
  {
    hide CleanAll, CleanStep, Decode, Encode, Dropped, UnitsOf, SoFar, EndsWithSpace;
    var chars := Decode(text);
    out := [];
    var index := 0;
    ghost var s := Cleaned([], false);
    CleanNone(u, allowed, chars);
    while index < |chars|
      invariant index <= |chars| && SoFar(u, allowed, chars, index, s) && out == Encode(s.kept)
      invariant s.skip ==> index == |chars| || chars[index] != SPACE
      decreases |chars| - index
    {
      var c := chars[index];
      if Dropped(u, allowed, c) {
        OneDropped(u, allowed, chars, index, s);
        s := Cleaned(s.kept, EndsWithSpace(s.kept));
        index := index + 1;
        while index < |chars| && Dropped(u, allowed, chars[index])
          invariant index <= |chars| && SoFar(u, allowed, chars, index, s) && out == Encode(s.kept)
          invariant s.skip == EndsWithSpace(s.kept)
        {
          OneDropped(u, allowed, chars, index, s);
          index := index + 1;
        }
        EndsAlike(s.kept);
        if TextEndsWithSpace(out) {
          while index < |chars| && chars[index] == SPACE
            invariant index <= |chars| && SoFar(u, allowed, chars, index, s) && out == Encode(s.kept)
            invariant s.skip && EndsWithSpace(s.kept)
          {
            OneSpaceLess(u, allowed, chars, index, s);
            index := index + 1;
          }
        }
      } else {
        OneKept(u, allowed, chars, index, s);
        s := Cleaned(s.kept + [c], false);
        out := out + UnitsOf(c);
        index := index + 1;
      }
    }
    SoFarEnd(u, allowed, chars, s);
  }

  lemma CleanNone(u: Unicode, allowed: set<nat>, chars: seq<Char>)
    ensures SoFar(u, allowed, chars, 0, Cleaned([], false)) && Encode([]) == []
  {
  }

  lemma LetterSoFar(u: Unicode, cs: seq<Char>, index: nat)
    requires index < |cs|
    ensures AnyLetter(u, cs[..index + 1]) <==> AnyLetter(u, cs[..index]) || u.letter(cs[index])
  {
    if AnyLetter(u, cs[..index]) {
      var i :| 0 <= i < |cs[..index]| && u.letter(cs[..index][i]);
      assert cs[..index + 1][i] == cs[..index][i];
    }
    if AnyLetter(u, cs[..index + 1]) {
      var i :| 0 <= i < |cs[..index + 1]| && u.letter(cs[..index + 1][i]);
      if i < index {
        assert cs[..index + 1][i] == cs[..index][i];
      }
    }
    assert cs[..index + 1][index] == cs[index];
  }

  lemma SpaceStays(u: Unicode, allowed: set<nat>)
    requires Sane(u)
    ensures !Dropped(u, allowed, SPACE) && !u.letter(SPACE)
  {
  }

  /** A text without a first half at its very end, which may still get its second. */
  function WholeOf(raw: Text): (r: Text)
    ensures r <= raw
  {
    if raw == [] || !IsHigh(raw[|raw| - 1]) then raw else raw[..|raw| - 1]
  }

  /** What may be shown before the end: the cleaned text so far, once there is more to it than marks and spaces. */
  predicate Showable(u: Unicode, allowed: set<nat>, raw: Text) {
    HasPayload(u, Strip(u, allowed, WholeOf(raw)))
  }

  function ShownOf(u: Unicode, allowed: set<nat>, raw: Text): Text {
    if Showable(u, allowed, raw) then Strip(u, allowed, WholeOf(raw)) else []
  }

  /** A gate for one reply: text goes in piece by piece, what may be shown comes out. */
  class Gate {
    const u: Unicode
    const allowed: set<nat>
    const fallback: Text
    ghost const userText: Text
    var raw: Text
    var scanned: nat
    var body: Text
    var rawHadLetter: bool
    var skipSpaces: bool
    var safe: Text
    var closed: bool
    ghost var kept: seq<Char>

    ghost predicate Scanned()
      reads `raw, `scanned, `body, `rawHadLetter, `skipSpaces, `kept
    {
      && scanned <= |raw|
      && CleanAll(u, allowed, Decode(raw[..scanned])) == Cleaned(kept, skipSpaces)
      && body == Encode(kept)
      && rawHadLetter == AnyLetter(u, Decode(raw[..scanned]))
    }

    /** All is scanned, except a first half at the very end that waits for its second. */
    ghost predicate UpToDate()
      reads `raw, `scanned
    {
      if raw == [] || !IsHigh(raw[|raw| - 1]) then scanned == |raw| else scanned == |raw| - 1
    }

    ghost predicate Valid()
      reads this
    {
      && Sane(u) && fallback == FallbackFor(u, userText) && Scanned()
      && (!closed ==> UpToDate() && safe == ShownOf(u, allowed, raw))
    }

    /** What is cleaned so far, and that what was shown is all of it, or nothing. */
    lemma ShownIs()
      requires Scanned() && UpToDate()
      ensures body == Strip(u, allowed, WholeOf(raw))
      ensures ShownOf(u, allowed, raw) == if HasPayload(u, body) then body else []
    {
      hide CleanAll, Decode, Encode, HasPayload;
      assert raw[..scanned] == WholeOf(raw);
    }

    constructor (u: Unicode, userText: Text, allowed: set<nat>)
      requires Sane(u)
      ensures Valid() && raw == [] && safe == [] && !closed
      ensures this.u == u && this.allowed == allowed && this.userText == userText
    {
      this.u, this.allowed, this.userText := u, allowed, userText;
      var f := ReplyFallback(u, userText);
      fallback := f;
      raw, scanned, body, rawHadLetter, skipSpaces, safe, closed := [], 0, [], false, false, [], false;
      kept := [];
    }

    /** Goes past the dropped characters from `from` on. */
    method SkipDropped(chars: seq<Char>, from: nat, ghost all: seq<Char>, ghost base: nat) returns (index: nat)
      requires from <= |chars| && base <= |all| && all[base..] == chars
      requires SoFar(u, allowed, all, base + from, Cleaned(kept, EndsWithSpace(kept)))
      requires rawHadLetter == AnyLetter(u, all[..base + from])
      modifies `rawHadLetter
      ensures from <= index <= |chars|
      ensures SoFar(u, allowed, all, base + index, Cleaned(kept, EndsWithSpace(kept)))
      ensures rawHadLetter == AnyLetter(u, all[..base + index])
    {
      hide CleanAll, AnyLetter, Dropped;
      index := from;
      while index < |chars| && Dropped(u, allowed, chars[index])
        invariant from <= index <= |chars|
        invariant SoFar(u, allowed, all, base + index, Cleaned(kept, EndsWithSpace(kept)))
        invariant rawHadLetter == AnyLetter(u, all[..base + index])
      {
        OneMore(u, allowed, all, base + index, Cleaned(kept, EndsWithSpace(kept)));
        LetterSoFar(u, all, base + index);
        if u.letter(chars[index]) {
          rawHadLetter := true;
        }
        index := index + 1;
      }
    }

    /** Goes past the spaces from `from` on. */
    method SkipSpaces(chars: seq<Char>, from: nat, ghost all: seq<Char>, ghost base: nat) returns (index: nat)
      requires Sane(u) && from <= |chars| && base <= |all| && all[base..] == chars
      requires SoFar(u, allowed, all, base + from, Cleaned(kept, true))
      requires rawHadLetter == AnyLetter(u, all[..base + from])
      ensures from <= index <= |chars|
      ensures SoFar(u, allowed, all, base + index, Cleaned(kept, true))
      ensures rawHadLetter == AnyLetter(u, all[..base + index])
    {
      hide CleanAll, AnyLetter, Dropped, Sane;
      index := from;
      while index < |chars| && chars[index] == SPACE
        invariant from <= index <= |chars|
        invariant SoFar(u, allowed, all, base + index, Cleaned(kept, true))
        invariant rawHadLetter == AnyLetter(u, all[..base + index])
      {
        OneMore(u, allowed, all, base + index, Cleaned(kept, true));
        LetterSoFar(u, all, base + index);
        SpaceStays(u, allowed);
        index := index + 1;
      }
    }

    /** After a dropped character: past the others of its run, and past the spaces where one is already shown. */
    method FinishGap(chars: seq<Char>, from: nat, ghost all: seq<Char>, ghost base: nat) returns (index: nat)
      requires Sane(u) && from <= |chars| && base <= |all| && all[base..] == chars
      requires SoFar(u, allowed, all, base + from, Cleaned(kept, EndsWithSpace(kept)))
      requires rawHadLetter == AnyLetter(u, all[..base + from]) && body == Encode(kept)
      modifies `rawHadLetter, `skipSpaces
      ensures from <= index <= |chars|
      ensures SoFar(u, allowed, all, base + index, Cleaned(kept, skipSpaces))
      ensures rawHadLetter == AnyLetter(u, all[..base + index])
    {
      hide CleanAll, Encode, AnyLetter, Dropped, Sane, SoFar;
      index := SkipDropped(chars, from, all, base);
      EndsAlike(kept);
      skipSpaces := TextEndsWithSpace(body);
      if skipSpaces {
        index := SkipSpaces(chars, index, all, base);
      }
    }

    /** Scans the units up to `end`, which parts no pair. */
    method Consume(end: nat)
      requires Sane(u) && Scanned() && scanned <= end <= |raw| && CleanCut(raw[..scanned], raw[scanned..end])
      modifies `scanned, `body, `rawHadLetter, `skipSpaces, `kept
      ensures Scanned() && scanned == end && old(body) <= body
    {
      hide CleanAll, Decode, Encode, AnyLetter, Dropped, Sane, CleanCut, UnitsOf, SoFar, EndsWithSpace;
      var chars := Decode(raw[scanned..end]);
      ghost var base := Decode(raw[..scanned]);
      ghost var all := base + chars;
      DecodeAppend(raw[..scanned], raw[scanned..end]);
      assert raw[..scanned] + raw[scanned..end] == raw[..end];
      assert all[..|base|] == base;
      assert all[|base|..] == chars;
      SoFarStart(u, allowed, all, |base|, Cleaned(kept, skipSpaces));
      var index := 0;
      while index < |chars|
        invariant index <= |chars|
        invariant SoFar(u, allowed, all, |base| + index, Cleaned(kept, skipSpaces))
        invariant body == Encode(kept) && old(body) <= body
        invariant rawHadLetter == AnyLetter(u, all[..|base| + index])
        decreases |chars| - index
      {
        var c := chars[index];
        LetterSoFar(u, all, |base| + index);
        if u.letter(c) {
          rawHadLetter := true;
        }
        index := index + 1;
        if Dropped(u, allowed, c) {
          OneDropped(u, allowed, all, |base| + index - 1, Cleaned(kept, skipSpaces));
          index := FinishGap(chars, index, all, |base|);
        } else if skipSpaces && c == SPACE {
          OneSwallowed(u, allowed, all, |base| + index - 1, Cleaned(kept, skipSpaces));
        } else {
          OneKept(u, allowed, all, |base| + index - 1, Cleaned(kept, skipSpaces));
          skipSpaces := false;
          body := body + UnitsOf(c);
          kept := kept + [c];
        }
      }
      assert all[..|all|] == all;
      SoFarEnd(u, allowed, all, Cleaned(kept, skipSpaces));
      scanned := end;
    }

    method Scan(includeTail: bool)
      requires Sane(u) && Scanned() && CleanCut(raw[..scanned], raw[scanned..])
      requires scanned == |raw| ==> includeTail || raw == [] || !IsHigh(raw[|raw| - 1])
      modifies `scanned, `body, `rawHadLetter, `skipSpaces, `kept
      ensures Scanned() && old(body) <= body
      ensures if includeTail then scanned == |raw| else UpToDate()
    {
      hide CleanAll, Decode, Encode, AnyLetter, Sane;
      var end := |raw|;
      if !includeTail && end > scanned {
        if IsHigh(raw[end - 1]) {
          end := end - 1;
        }
      }
      Consume(end);
    }

    /** What is new since the last time, if nothing shown would have to be taken back. */
    method Publish(next: Text) returns (piece: Text)
      modifies `safe
      ensures if old(safe) <= next then safe == next && old(safe) + piece == next else safe == old(safe) && piece == []
    {
      if !(safe <= next) {
        return [];
      }
      piece := next[|safe|..];
      safe := next;
    }

    method Push(delta: Text) returns (piece: Text)
      requires Valid()
      modifies this
      ensures Valid() && closed == old(closed) && old(safe) + piece == safe
      ensures raw == if closed then old(raw) else old(raw) + delta
      ensures safe == if closed then old(safe) else ShownOf(u, allowed, raw)
    {
      hide Sane, HasPayload, Decode, Encode, CleanAll, AnyLetter, CleanCut, IsHigh, IsLow, FallbackFor, Strip, ShownOf,
        WholeOf;
      if closed || delta == [] {
        assert old(raw) + [] == old(raw);
        return [];
      }
      ghost var before := body;
      ShownIs();
      CutStaysClean(raw, delta, scanned);
      raw := raw + delta;
      Scan(false);
      ShownIs();
      if HasPayload(u, before) {
        PayloadKept(u, before, body);
      }
      if !HasPayload(u, body) {
        return [];
      }
      piece := Publish(body);
    }

    /** The end of the reply; without `allowFallback` an empty one stays empty. */
    method Finish(allowFallback: bool) returns (piece: Text)
      requires Valid()
      modifies this
      ensures Valid() && closed && raw == old(raw) && old(safe) + piece == safe
      ensures old(closed) ==> piece == []
      ensures !old(closed) ==>
                safe == if allowFallback then Present(u, allowed, userText, raw) else Strip(u, allowed, raw)
    {
      hide Sane, HasPayload, Decode, Encode, CleanAll, AnyLetter, FallbackFor, ShownOf, WholeOf;
      if closed {
        return [];
      }
      ghost var before := body;
      ShownIs();
      closed := true;
      Scan(true);
      if HasPayload(u, before) {
        PayloadKept(u, before, body);
      }
      assert raw[..|raw|] == raw;
      var next := if allowFallback && !HasPayload(u, body) && rawHadLetter then fallback else body;
      piece := Publish(next);
    }
  }

  /** New text after a held half, or after none, is read with it. */
  lemma CutStaysClean(raw: Text, delta: Text, scanned: nat)
    requires if raw == [] || !IsHigh(raw[|raw| - 1]) then scanned == |raw| else scanned == |raw| - 1
    ensures (raw + delta)[..scanned] == raw[..scanned]
    ensures CleanCut((raw + delta)[..scanned], (raw + delta)[scanned..])
  {
  }

  /** However a reply is cut into pieces, what comes out, put together, is its presentation. */
  method Stream(u: Unicode, userText: Text, allowed: set<nat>, deltas: seq<Text>) returns (shown: seq<Text>)
    requires Sane(u)
    ensures |shown| == |deltas| + 1
    ensures InStep(u, allowed, shown[..|deltas|], deltas)
    ensures Joined(shown) == Present(u, allowed, userText, Joined(deltas))
  {
    hide Sane, Present, ShownOf, WholeOf, InStep;
    NothingShown(u, allowed, deltas);
    var gate := new Gate(u, userText, allowed);
    shown := [];
    for i := 0 to |deltas|
      invariant gate.Valid() && fresh(gate) && !gate.closed && gate.raw == Joined(deltas[..i])
      invariant gate.u == u && gate.allowed == allowed && gate.userText == userText
      invariant |shown| == i && Joined(shown) == gate.safe
      invariant InStep(u, allowed, shown, deltas)
    {
      assert deltas[..i + 1][..i] == deltas[..i];
      var piece := gate.Push(deltas[i]);
      JoinsOn(shown, piece);
      StepsOn(u, allowed, shown, piece, deltas);
      shown := shown + [piece];
    }
    assert deltas[..|deltas|] == deltas;
    var last := gate.Finish(true);
    JoinsOn(shown, last);
    assert (shown + [last])[..|deltas|] == shown;
    shown := shown + [last];
  }

  /** After each piece, what has come out is what may be shown of what has gone in. */
  predicate InStep(u: Unicode, allowed: set<nat>, shown: seq<Text>, deltas: seq<Text>) {
    && |shown| <= |deltas|
    && forall k :: 0 <= k <= |shown| ==> Joined(shown[..k]) == ShownOf(u, allowed, Joined(deltas[..k]))
  }

  lemma StepsOn(u: Unicode, allowed: set<nat>, shown: seq<Text>, piece: Text, deltas: seq<Text>)
    requires InStep(u, allowed, shown, deltas) && |shown| < |deltas|
    requires Joined(shown) + piece == ShownOf(u, allowed, Joined(deltas[..|shown| + 1]))
    ensures InStep(u, allowed, shown + [piece], deltas)
  {
    hide ShownOf, Joined;
    var more := shown + [piece];
    JoinsOn(shown, piece);
    assert shown[..|shown|] == shown;
    forall k | 0 <= k <= |more| ensures Joined(more[..k]) == ShownOf(u, allowed, Joined(deltas[..k])) {
      if k < |more| {
        assert more[..k] == shown[..k];
      } else {
        assert more[..k] == more;
      }
    }
  }

  lemma JoinsOn(pieces: seq<Text>, piece: Text)
    ensures Joined(pieces + [piece]) == Joined(pieces) + piece
  {
    assert (pieces + [piece])[..|pieces|] == pieces;
  }

  lemma NothingShown(u: Unicode, allowed: set<nat>, deltas: seq<Text>)
    ensures ShownOf(u, allowed, []) == [] && Joined([]) == [] && InStep(u, allowed, [], deltas)
  {
    assert deltas[..0] == [];
  }

  /** One push and the end: the same as presenting the whole. */
  method SanitizeReplyText(u: Unicode, userText: Text, text: Text) returns (r: Text)
    requires Sane(u)
    ensures r == Present(u, ScriptsIn(u, Decode(userText)), userText, text)
  {
    var allowed := CompileReplyScripts(u, userText);
    var gate := new Gate(u, userText, allowed);
    var first := gate.Push(text);
    assert [] + text == text;
    var last := gate.Finish(true);
    r := gate.safe;
  }
}
