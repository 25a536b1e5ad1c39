/**
 * The beginning of one written object in front of the end of another, and what a reader makes of it: either the
 * texts run into each other at places of the same kind, or there is no object.
 */
module TornText {
  import opened Basics
  import opened JsonObjects

  predicate Clean(s: string) {
    forall i :: 0 <= i < |s| ==> s[i] != '"' && s[i] != '\\'
  }

  /** A text that is written as it is, and that no end of it can be taken for what stands between two texts. */
  predicate Plain(s: string) {
    && Clean(s)
    && (forall i :: 0 <= i < |s| ==> s[i] != '}')
    && (s != "" ==> s[|s| - 1] != ':' && s[|s| - 1] != ',')
  }

  predicate AllPlain(texts: Texts) {
    forall i :: 0 <= i < |texts| ==> Plain(texts[i])
  }

  /** Where a text starts, counted from the start of the first one. */
  function Start(texts: Texts, i: nat): nat
    requires i <= |texts|
  {
    if i == 0 then 0 else |texts[0]| + 3 + Start(texts[1..], i - 1)
  }

  /** What is left of a text from a place on. */
  function From(text: string, p: nat): string {
    if p <= |text| then text[p..] else ""
  }

  /** The first `k` units of one written object, and the other one's from `p` on. */
  function State(later: Texts, isKey: bool, k: nat, before: Texts, wasKey: bool, p: nat): string
    requires later != [] && before != [] && k <= |Written(later, isKey)|
  {
    Written(later, isKey)[..k] + From(Written(before, wasKey), p)
  }

  /** `a` units into the new text `i`, and `b` units into the old text `j`. */
  datatype Joint = Joint(i: nat, a: nat, j: nat, b: nat)

  /** Both places are there, and they are both in a key or both in a value. */
  predicate Fits(later: Texts, before: Texts, at: Joint) {
    && at.i < |later| && at.j < |before|
    && at.a <= |later[at.i]| && at.b <= |before[at.j]|
    && (|later| - at.i) % 2 == (|before| - at.j) % 2
  }

  function Reached(later: Texts, at: Joint): nat
    requires at.i < |later|
  {
    Start(later, at.i) + at.a
  }

  function Left(before: Texts, at: Joint): nat
    requires at.j < |before|
  {
    Start(before, at.j) + at.b
  }

  /** The new texts up to the joint, the text made of both, and the old texts after it. */
  function Join(later: Texts, before: Texts, at: Joint): Texts
    requires Fits(later, before, at)
  {
    later[..at.i] + [later[at.i][..at.a] + before[at.j][at.b..]] + before[at.j + 1..]
  }

  // ---------------------------------------------------------------- how an object is written

  lemma {:induction false} CleanStays(s: string)
    requires Clean(s)
    ensures Escaped(s) == s
  {
    if s != "" {
      CleanStays(s[1..]);
      assert s == [s[0]] + s[1..];
    }
  }

  lemma CleanReads(s: string, rest: string, isKey: bool)
    requires Clean(s)
    ensures Read(s + ("\"" + rest), isKey) == ReadOn(s, rest, isKey)
  {
    hide Read, ReadOn, Escaped;
    CleanStays(s);
    ReadStep(s, rest, isKey);
  }

  lemma {:induction false} NoQuoteNoText(s: string)
    requires Clean(s)
    ensures ParseText(s) == None
  {
    if s != "" {
      NoQuoteNoText(s[1..]);
    }
  }

  lemma First(texts: Texts, isKey: bool)
    requires texts != [] && Plain(texts[0])
    ensures Written(texts, isKey) == texts[0] + ("\"" + After(texts, isKey))
    ensures |texts| > 1 ==>
              After(texts, isKey) == Between(isKey) + Written(texts[1..], !isKey) && |Between(isKey)| == 2
  {
    hide Escaped;
    CleanStays(texts[0]);
  }

  lemma PeelPrefix(texts: Texts, isKey: bool, k: nat)
    requires |texts| > 1 && Plain(texts[0]) && |texts[0]| + 3 <= k <= |Written(texts, isKey)|
    ensures |Written(texts, isKey)| == |texts[0]| + 3 + |Written(texts[1..], !isKey)|
    ensures Written(texts, isKey)[..k]
         == texts[0] + ("\"" + (Between(isKey) + Written(texts[1..], !isKey)[..k - |texts[0]| - 3]))
  {
    hide Escaped, Written, After, Between;
    First(texts, isKey);
  }

  lemma PeelSuffix(texts: Texts, isKey: bool, p: nat)
    requires |texts| > 1 && Plain(texts[0]) && |texts[0]| + 3 <= p
    ensures From(Written(texts, isKey), p) == From(Written(texts[1..], !isKey), p - |texts[0]| - 3)
  {
    hide Escaped, Written, After, Between;
    First(texts, isKey);
  }

  // ---------------------------------------------------------------- what cannot be read on

  /** From inside a plain text, or from its closing quote, no object is read on. */
  lemma NoWayOn(text: string, s: string, b: nat, rest: string, isKey: bool)
    requires Plain(s) && b <= |s|
    ensures ReadOn(text, s[b..] + ("\"" + rest), isKey) == None
  {
    var t := s[b..] + ("\"" + rest);
    if b == |s| {
      assert t[0] == '"';
    } else {
      assert t[0] == s[b];
      assert t[1] == if b + 1 < |s| then s[b + 1] else '"';
    }
  }

  lemma NoWayIntoText(text: string, texts: Texts, wasKey: bool, isKey: bool)
    requires texts != [] && Plain(texts[0])
    ensures ReadOn(text, Written(texts, wasKey), isKey) == None
  {
    hide ReadOn, Written;
    First(texts, wasKey);
    NoWayOn(text, texts[0], 0, After(texts, wasKey), isKey);
    assert texts[0][0..] == texts[0];
  }

  /** After a key no value ends, and after a value no key. */
  lemma WrongTurn(text: string, texts: Texts, wasKey: bool)
    requires Closed(texts, wasKey)
    ensures ReadOn(text, After(texts, wasKey), !wasKey) == None
  {
    hide Read, Written;
    var b := After(texts, wasKey);
    if |texts| > 1 {
      assert b[0] == if wasKey then ':' else ',';
    }
  }

  lemma WrongStart(texts: Texts, wasKey: bool)
    requires Closed(texts, wasKey) && Plain(texts[0])
    ensures Read(Written(texts, wasKey), !wasKey) == None
  {
    hide Read, ReadOn, Written, After;
    First(texts, wasKey);
    CleanReads(texts[0], After(texts, wasKey), !wasKey);
    WrongTurn(texts[0], texts, wasKey);
  }

  /** A text that ends where the first of these does is read on as they are. */
  lemma ReadsOn(text: string, texts: Texts, isKey: bool)
    requires Closed(texts, isKey) && Plain(texts[0])
    ensures ReadOn(text, After(texts, isKey), isKey) == Some([text] + texts[1..])
  {
    hide Read, ReadOn, Written, After;
    if |texts| == 1 {
      LastAfter(texts, isKey);
      ReadEnd(text);
      assert [text] + texts[1..] == [text];
    } else {
      ReadsBack(texts[1..], !isKey);
      ReadNext(text, isKey, Written(texts[1..], !isKey));
      First(texts, isKey);
    }
  }

  lemma BetweenIs(isKey: bool)
    ensures Between(isKey) == [if isKey then ':' else ','] + "\""
  {
  }

  // ---------------------------------------------------------------- one text against one text

  /** `r` is what the two objects give when they are joined here, at most two units after the joint. */
  ghost predicate Explained(later: Texts, k: nat, before: Texts, p: nat, r: Option<Texts>, at: Joint) {
    && Fits(later, before, at)
    && r == Some(Join(later, before, at))
    && Reached(later, at) <= k <= Reached(later, at) + 2
    && p == Left(before, at) + (k - Reached(later, at))
  }

  /** Neither side goes further than two units behind its first text, unless that is its last. */
  predicate AtFirst(later: Texts, isKey: bool, k: nat, before: Texts, wasKey: bool, p: nat) {
    && Closed(later, isKey) && Closed(before, wasKey) && Plain(later[0]) && AllPlain(before)
    && k <= |later[0]| + 2
    && (|before| > 1 ==> p <= |before[0]| + 2)
  }

  lemma JoinedAtFirst(later: Texts, k: nat, before: Texts, p: nat, at: Joint, text: string)
    requires later != [] && before != [] && at.i == 0 && at.j == 0 && at.a <= |later[0]| && at.b <= |before[0]|
    requires |later| % 2 == |before| % 2 && text == later[0][..at.a] + before[0][at.b..]
    requires at.a <= k <= at.a + 2 && p == at.b + (k - at.a)
    ensures Explained(later, k, before, p, Some([text] + before[1..]), at)
  {
    assert Join(later, before, at) == [text] + before[1..];
  }

  lemma InsideText(later: Texts, isKey: bool, k: nat, before: Texts, wasKey: bool, p: nat)
    requires AtFirst(later, isKey, k, before, wasKey, p) && k <= |later[0]| && k <= |Written(later, isKey)|
    ensures var r := Read(State(later, isKey, k, before, wasKey, p), isKey);
      r.Some? ==> Explained(later, k, before, p, r, Joint(0, k, 0, p))
  {
    hide Read, ReadOn, Written, After, Between;
    var c, o, after := later[0], before[0], After(before, wasKey);
    First(later, isKey);
    First(before, wasKey);
    assert Written(later, isKey)[..k] == c[..k];
    if p <= |o| {
      var text := c[..k] + o[p..];
      assert State(later, isKey, k, before, wasKey, p) == text + ("\"" + after);
      CleanReads(text, after, isKey);
      if isKey == wasKey {
        ReadsOn(text, before, isKey);
        JoinedAtFirst(later, k, before, p, Joint(0, k, 0, p), text);
      } else {
        WrongTurn(text, before, wasKey);
      }
    } else {
      InsideTextBehind(c[..k], isKey, before, wasKey, p);
    }
  }

  lemma InsideTextBehind(text: string, isKey: bool, before: Texts, wasKey: bool, p: nat)
    requires Clean(text) && Closed(before, wasKey) && AllPlain(before) && |before[0]| < p
    requires |before| > 1 ==> p <= |before[0]| + 2
    ensures Read(text + From(Written(before, wasKey), p), isKey) == None
  {
    hide Read, ReadOn, Written, After, Between;
    var o := before[0];
    First(before, wasKey);
    var left := From(Written(before, wasKey), p);
    if |before| == 1 {
      assert left == if p == |o| + 1 then "}" else "" by { LastAfter(before, wasKey); }
      NothingToRead(text, left, isKey);
    } else {
      BetweenIs(wasKey);
      var rest := Written(before[1..], !wasKey);
      var more := if p == |o| + 1 then text + [Between(wasKey)[0]] else text;
      assert text + left == more + ("\"" + rest);
      CleanReads(more, rest, isKey);
      NoWayIntoText(more, before[1..], !wasKey, isKey);
    }
  }

  lemma LastAfter(texts: Texts, isKey: bool)
    requires |texts| == 1
    ensures After(texts, isKey) == "}"
  {
  }

  lemma NothingToRead(text: string, end: string, isKey: bool)
    requires Clean(text) && end in {"", "}"}
    ensures Read(text + end, isKey) == None
  {
    assert Clean(text + end);
    NoQuoteNoText(text + end);
  }

  lemma BehindQuote(later: Texts, isKey: bool, before: Texts, wasKey: bool, p: nat)
    requires later != [] && AtFirst(later, isKey, |later[0]| + 1, before, wasKey, p)
    requires |later[0]| + 1 <= |Written(later, isKey)|
    ensures var k := |later[0]| + 1;
      var r := Read(State(later, isKey, k, before, wasKey, p), isKey);
      r.Some? ==> Explained(later, k, before, p, r, Joint(0, k - 1, 0, |before[0]|))
  {
    hide Read, ReadOn, Written, After, Between;
    var c, o, after := later[0], before[0], After(before, wasKey);
    First(later, isKey);
    First(before, wasKey);
    var left := From(Written(before, wasKey), p);
    assert State(later, isKey, |c| + 1, before, wasKey, p) == c + ("\"" + left);
    CleanReads(c, left, isKey);
    if p == |o| + 1 && isKey == wasKey {
      assert left == after;
      ReadsOn(c, before, isKey);
      JoinedAtFirst(later, |c| + 1, before, p, Joint(0, |c|, 0, |o|), c);
    } else {
      QuoteAndOther(c, isKey, before, wasKey, p);
    }
  }

  lemma QuoteAndOther(text: string, isKey: bool, before: Texts, wasKey: bool, p: nat)
    requires Closed(before, wasKey) && AllPlain(before) && (|before| > 1 ==> p <= |before[0]| + 2)
    requires !(p == |before[0]| + 1 && isKey == wasKey)
    ensures ReadOn(text, From(Written(before, wasKey), p), isKey) == None
  {
    hide Read, ReadOn, Written, After, Between;
    var o, after := before[0], After(before, wasKey);
    First(before, wasKey);
    var left := From(Written(before, wasKey), p);
    if p <= |o| {
      assert left == o[p..] + ("\"" + after);
      NoWayOn(text, o, p, after, isKey);
    } else if p == |o| + 1 {
      assert left == after;
      WrongTurn(text, before, wasKey);
    } else if |before| == 1 {
      LastAfter(before, wasKey);
      assert left == "";
      NothingOn(text, isKey);
    } else {
      BetweenIs(wasKey);
      assert left == ""[0..] + ("\"" + Written(before[1..], !wasKey));
      NoWayOn(text, "", 0, Written(before[1..], !wasKey), isKey);
    }
  }

  lemma NothingOn(text: string, isKey: bool)
    ensures ReadOn(text, "", isKey) == None
  {
  }

  lemma BehindSeparator(later: Texts, isKey: bool, before: Texts, wasKey: bool, p: nat)
    requires |later| > 1 && AtFirst(later, isKey, |later[0]| + 2, before, wasKey, p)
    requires |later[0]| + 2 <= |Written(later, isKey)|
    ensures var k := |later[0]| + 2;
      var r := Read(State(later, isKey, k, before, wasKey, p), isKey);
      r.Some? ==> Explained(later, k, before, p, r, Joint(0, k - 2, 0, |before[0]|))
  {
    hide Read, ReadOn, Written, After, Between;
    var c, o, after := later[0], before[0], After(before, wasKey);
    First(later, isKey);
    First(before, wasKey);
    BetweenIs(isKey);
    var left := From(Written(before, wasKey), p);
    var x := Between(isKey)[..1];
    assert State(later, isKey, |c| + 2, before, wasKey, p) == c + ("\"" + (x + left));
    CleanReads(c, x + left, isKey);
    if left == "" || left[0] != '"' {
      HalfSeparator(c, isKey, left);
    } else {
      assert x + left == Between(isKey) + left[1..];
      ReadNext(c, isKey, left[1..]);
      SeparatorGoesOn(isKey, before, wasKey, p);
      if p == |o| + 2 && |before| > 1 && isKey == wasKey {
        JoinedAtFirst(later, |c| + 2, before, p, Joint(0, |c|, 0, |o|), c);
      }
    }
  }

  lemma HalfSeparator(text: string, isKey: bool, left: string)
    requires left == "" || left[0] != '"'
    ensures ReadOn(text, Between(isKey)[..1] + left, isKey) == None
  {
    var b := Between(isKey)[..1] + left;
    assert b[0] == if isKey then ':' else ',';
    if left != "" {
      assert b[1] == left[0];
    }
  }

  lemma LeftStarts(before: Texts, wasKey: bool, p: nat)
    requires |before| > 1 && Plain(before[0]) && p <= |before[0]| + 2
    ensures var left := From(Written(before, wasKey), p);
      left != "" && (left[0] == '"' <==> p in {|before[0]|, |before[0]| + 2})
  {
    hide Written, After, Between;
    First(before, wasKey);
    BetweenIs(wasKey);
  }

  lemma LeftGoesOn(before: Texts, wasKey: bool, p: nat)
    requires |before| > 1 && Plain(before[0]) && p in {|before[0]|, |before[0]| + 2}
    ensures var left, rest := From(Written(before, wasKey), p), Written(before[1..], !wasKey);
      && |Between(wasKey)| == 2 && left != ""
      && left[1..] == if p == |before[0]| then [Between(wasKey)[0]] + ("\"" + rest) else rest
  {
    hide Written, After, Between;
    First(before, wasKey);
    BetweenIs(wasKey);
  }

  /** If the old text goes on with a quote, only the one that opens its next text opens a text of that kind. */
  lemma SeparatorGoesOn(isKey: bool, before: Texts, wasKey: bool, p: nat)
    requires Closed(before, wasKey) && AllPlain(before) && (|before| > 1 ==> p <= |before[0]| + 2)
    requires From(Written(before, wasKey), p) != "" && From(Written(before, wasKey), p)[0] == '"'
    ensures Read(From(Written(before, wasKey), p)[1..], !isKey)
         == if p == |before[0]| + 2 && |before| > 1 && isKey == wasKey then Some(before[1..]) else None
  {
    hide Read, ReadOn, Written, After, Between;
    var o, after := before[0], After(before, wasKey);
    First(before, wasKey);
    var left := From(Written(before, wasKey), p);
    if |before| == 1 {
      LastAfter(before, wasKey);
      assert p == |o| && left[1..] == "" + "}";
      NothingToRead("", "}", !isKey);
    } else {
      BetweenIs(wasKey);
      var rest := Written(before[1..], !wasKey);
      LeftStarts(before, wasKey, p);
      LeftGoesOn(before, wasKey, p);
      if p == |o| {
        var y := [Between(wasKey)[0]];
        CleanReads(y, rest, !isKey);
        NoWayIntoText(y, before[1..], !wasKey, !isKey);
      } else {
        if isKey == wasKey {
          ReadsBack(before[1..], !isKey);
        } else {
          WrongStart(before[1..], !wasKey);
        }
      }
    }
  }

  // ---------------------------------------------------------------- one object against one object

  lemma LaterGoesOn(later: Texts, isKey: bool, k: nat, before: Texts, wasKey: bool, p: nat)
    requires |later| > 1 && before != [] && Plain(later[0]) && |later[0]| + 3 <= k <= |Written(later, isKey)|
    ensures k - |later[0]| - 3 <= |Written(later[1..], !isKey)|
    ensures |Written(later, isKey)| == |later[0]| + 3 + |Written(later[1..], !isKey)|
    ensures var others := Read(State(later[1..], !isKey, k - |later[0]| - 3, before, wasKey, p), !isKey);
      Read(State(later, isKey, k, before, wasKey, p), isKey)
      == if others.None? then None else Some([later[0]] + others.value)
  {
    hide Read, ReadOn, Written, After, Between;
    PeelPrefix(later, isKey, k);
    var c, state := later[0], State(later[1..], !isKey, k - |later[0]| - 3, before, wasKey, p);
    assert State(later, isKey, k, before, wasKey, p) == c + ("\"" + (Between(isKey) + state));
    CleanReads(c, Between(isKey) + state, isKey);
    ReadNext(c, isKey, state);
  }

  lemma LiftLater(later: Texts, before: Texts, at: Joint)
    requires later != [] && Fits(later[1..], before, at)
    ensures var up := at.(i := at.i + 1);
      && Fits(later, before, up)
      && Join(later, before, up) == [later[0]] + Join(later[1..], before, at)
      && Reached(later, up) == |later[0]| + 3 + Reached(later[1..], at) && Left(before, up) == Left(before, at)
  {
    var up := at.(i := at.i + 1);
    assert later[..up.i] == [later[0]] + later[1..][..at.i];
  }

  lemma LiftBefore(later: Texts, before: Texts, at: Joint)
    requires before != [] && Fits(later, before[1..], at)
    ensures var up := at.(j := at.j + 1);
      && Fits(later, before, up)
      && Join(later, before, up) == Join(later, before[1..], at)
      && Left(before, up) == |before[0]| + 3 + Left(before[1..], at) && Reached(later, up) == Reached(later, at)
  {
    var up := at.(j := at.j + 1);
    assert before[up.j + 1..] == before[1..][at.j + 1..];
  }

  /** If there is an object at all, it is the new one, whole, or there is a joint that explains it. */
  lemma {:induction false} StateReads(later: Texts, isKey: bool, k: nat, before: Texts, wasKey: bool, p: nat)
    returns (at: Joint)
    requires Closed(later, isKey) && Closed(before, wasKey) && AllPlain(later) && AllPlain(before)
    requires k <= |Written(later, isKey)|
    ensures var r := Read(State(later, isKey, k, before, wasKey, p), isKey);
      r.Some? ==> (r == Some(later) && k == |Written(later, isKey)|) || Explained(later, k, before, p, r, at)
    decreases |later| + |before|
  {
    hide Read, Written, Join, Fits, Reached, Left, Between;
    var c, o := later[0], before[0];
    if |later| > 1 && |c| + 3 <= k {
      LaterGoesOn(later, isKey, k, before, wasKey, p);
      at := StateReads(later[1..], !isKey, k - |c| - 3, before, wasKey, p);
      if Fits(later[1..], before, at) {
        LiftLater(later, before, at);
      }
      at := at.(i := at.i + 1);
      assert later == [c] + later[1..];
    } else if |before| > 1 && |o| + 3 <= p {
      PeelSuffix(before, wasKey, p);
      at := StateReads(later, isKey, k, before[1..], !wasKey, p - |o| - 3);
      if Fits(later, before[1..], at) {
        LiftBefore(later, before, at);
      }
      at := at.(j := at.j + 1);
    } else {
      at := AtFirstReads(later, isKey, k, before, wasKey, p);
    }
  }

  lemma AtFirstReads(later: Texts, isKey: bool, k: nat, before: Texts, wasKey: bool, p: nat) returns (at: Joint)
    requires Closed(later, isKey) && Closed(before, wasKey) && AllPlain(later) && AllPlain(before)
    requires k <= |Written(later, isKey)|
    requires (|later| > 1 ==> k <= |later[0]| + 2) && (|before| > 1 ==> p <= |before[0]| + 2)
    ensures var r := Read(State(later, isKey, k, before, wasKey, p), isKey);
      r.Some? ==> (r == Some(later) && k == |Written(later, isKey)|) || Explained(later, k, before, p, r, at)
  {
    hide Read, Written, After, Explained, Between;
    var c := later[0];
    First(later, isKey);
    if |later| == 1 {
      LastAfter(later, isKey);
    }
    if k <= |c| {
      InsideText(later, isKey, k, before, wasKey, p);
      at := Joint(0, k, 0, p);
    } else if k == |c| + 1 {
      BehindQuote(later, isKey, before, wasKey, p);
      at := Joint(0, |c|, 0, |before[0]|);
    } else if |later| > 1 {
      BehindSeparator(later, isKey, before, wasKey, p);
      at := Joint(0, |c|, 0, |before[0]|);
    } else {
      ReadsBack(later, isKey);
      assert Written(later, isKey)[..k] == Written(later, isKey);
      ReadIgnoresMore(Written(later, isKey), isKey, From(Written(before, wasKey), p));
      at := Joint(0, 0, 0, 0);
    }
  }

  lemma FirstJointReads(later: Texts, isKey: bool, before: Texts, wasKey: bool, at: Joint)
    requires Closed(later, isKey) && Closed(before, wasKey) && AllPlain(later) && AllPlain(before)
    requires Fits(later, before, at) && at.i == 0 && at.j == 0
    ensures Reached(later, at) <= |Written(later, isKey)|
    ensures Read(State(later, isKey, Reached(later, at), before, wasKey, Left(before, at)), isKey)
         == Some(Join(later, before, at))
  {
    hide Read, ReadOn, Written, After, Between;
    var c, o := later[0], before[0];
    First(later, isKey);
    First(before, wasKey);
    var text := c[..at.a] + o[at.b..];
    assert State(later, isKey, at.a, before, wasKey, at.b) == text + ("\"" + After(before, wasKey));
    CleanReads(text, After(before, wasKey), isKey);
    ReadsOn(text, before, isKey);
    assert Join(later, before, at) == [text] + before[1..];
  }

  lemma LowerLater(later: Texts, isKey: bool, before: Texts, at: Joint)
    requires Closed(later, isKey) && Fits(later, before, at) && at.i > 0
    ensures Closed(later[1..], !isKey) && Fits(later[1..], before, at.(i := at.i - 1))
    ensures |later[0]| + 3 <= Reached(later, at)
  {
  }

  lemma LowerBefore(later: Texts, before: Texts, wasKey: bool, at: Joint)
    requires Closed(before, wasKey) && Fits(later, before, at) && at.j > 0
    ensures Closed(before[1..], !wasKey) && Fits(later, before[1..], at.(j := at.j - 1))
    ensures |before[0]| + 3 <= Left(before, at)
  {
  }

  lemma Longer(texts: Texts, isKey: bool)
    requires |texts| > 1 && Plain(texts[0])
    ensures |Written(texts, isKey)| == |texts[0]| + 3 + |Written(texts[1..], !isKey)|
  {
    hide Written, After, Between;
    First(texts, isKey);
  }

  /** Where the new text meets the old one in a joint, the texts are joined there. */
  lemma {:induction false} JointReads(later: Texts, isKey: bool, before: Texts, wasKey: bool, at: Joint)
    requires Closed(later, isKey) && Closed(before, wasKey) && AllPlain(later) && AllPlain(before)
    requires Fits(later, before, at)
    ensures Reached(later, at) <= |Written(later, isKey)|
    ensures Read(State(later, isKey, Reached(later, at), before, wasKey, Left(before, at)), isKey)
         == Some(Join(later, before, at))
    decreases |later| + |before|
  {
    hide Read, Written, Join, Reached, Left, State, Fits;
    if at.i > 0 {
      var down := at.(i := at.i - 1);
      LowerLater(later, isKey, before, at);
      JointReads(later[1..], !isKey, before, wasKey, down);
      LiftLater(later, before, down);
      Longer(later, isKey);
      LaterGoesOn(later, isKey, Reached(later, at), before, wasKey, Left(before, at));
    } else if at.j > 0 {
      var down := at.(j := at.j - 1);
      LowerBefore(later, before, wasKey, at);
      JointReads(later, isKey, before[1..], !wasKey, down);
      LiftBefore(later, before, down);
      OlderIsSame(later, isKey, Reached(later, at), before, wasKey, Left(before, at));
    } else {
      FirstJointReads(later, isKey, before, wasKey, at);
    }
  }

  lemma OlderIsSame(later: Texts, isKey: bool, k: nat, before: Texts, wasKey: bool, p: nat)
    requires later != [] && |before| > 1 && Plain(before[0]) && |before[0]| + 3 <= p && k <= |Written(later, isKey)|
    ensures State(later, isKey, k, before, wasKey, p)
         == State(later, isKey, k, before[1..], !wasKey, p - |before[0]| - 3)
  {
    hide Written;
    PeelSuffix(before, wasKey, p);
  }
}
