/** The streaming splitter: one object, fed the whole text so far, that never looks back. */
module InlineReasoningSplitter {
  import opened Basics
  import opened CodeUnits
  import opened InlineReasoning

  datatype Phase = Reading | NotTag | Open | Closed

  /** What the fields of the reader say about the text up to `cursor`. */
  ghost predicate ReadTo(t: Text, tags: seq<Text>, cursor: nat, lt: nat, name: Option<Text>, named: bool) {
    && cursor <= |t|
    && match name
       case None => AllSpace(t[..cursor]) && !named
       case Some(n) =>
         var end := lt + 1 + |n|;
         && end <= cursor && AllSpace(t[..lt]) && t[lt] == LESS
         && AllLetters(t[lt + 1..end]) && LowerAll(t[lt + 1..end]) == n
         && (if named then end < cursor && n in tags && AllSpace(t[end..cursor]) else end == cursor)
  }

  /** The tags a name read so far can still become. */
  ghost predicate Narrowed(tags: seq<Text>, n: Text, candidates: seq<Text>) {
    && (forall c :: c in candidates <==> c in tags && n <= c)
    && (n != [] ==> candidates != [])
  }

  function Narrow(candidates: seq<Text>, at: nat, u: CodeUnit): (r: seq<Text>)
    ensures forall c :: c in r <==> c in candidates && at < |c| && c[at] == u
  {
    if candidates == [] then []
    else
      var rest := Narrow(candidates[1..], at, u);
      assert forall c :: c in candidates <==> c == candidates[0] || c in candidates[1..];
      if at < |candidates[0]| && candidates[0][at] == u then [candidates[0]] + rest else rest
  }

  predicate HasLength(candidates: seq<Text>, n: nat) {
    exists k :: 0 <= k < |candidates| && |candidates[k]| == n
  }

  lemma NameIsTag(tags: seq<Text>, n: Text, candidates: seq<Text>)
    requires Narrowed(tags, n, candidates)
    ensures HasLength(candidates, |n|) <==> n in tags
  {
    if n in tags {
      var k :| 0 <= k < |candidates| && candidates[k] == n;
    }
    if k :| 0 <= k < |candidates| && |candidates[k]| == |n| {
      assert candidates[k] in candidates;
      assert candidates[k] == n;
    }
  }

  /** Where the reading functions stop on a text read this far. */
  lemma NameEnds(t: Text, tags: seq<Text>, cursor: nat, lt: nat, name: Option<Text>, named: bool)
    requires ReadTo(t, tags, cursor, lt, name, named) && name.Some?
    ensures SkipSpace(t, 0) == lt < |t|
    ensures named || cursor == |t| || !IsLetter(t[cursor]) ==> SkipLetters(t, lt + 1) == lt + 1 + |name.value|
    ensures named && (cursor == |t| || !IsSpace(t[cursor])) ==> SkipSpace(t, lt + 1 + |name.value|) == cursor
  {
    var end := lt + 1 + |name.value|;
    assert t[0..lt] == t[..lt];
    SkipSpaceTo(t, 0, lt);
    if named {
      assert t[end] == t[end..cursor][0];
    }
    if named || cursor == |t| || !IsLetter(t[cursor]) {
      SkipLettersTo(t, lt + 1, end);
    }
    if named && (cursor == |t| || !IsSpace(t[cursor])) {
      SkipSpaceTo(t, end, cursor);
    }
  }

  lemma StillUndecided(t: Text, tags: seq<Text>, lt: nat, name: Option<Text>, named: bool, candidates: seq<Text>)
    requires ReadTo(t, tags, |t|, lt, name, named)
    requires name.Some? ==> Narrowed(tags, name.value, candidates)
    ensures OpeningOf(t, tags).Undecided?
  {
    if name.Some? && name.value != [] {
      assert candidates[0] in candidates;
    }
    if name.None? {
      assert t[0..|t|] == t[..|t|];
      SkipSpaceTo(t, 0, |t|);
    } else {
      NameEnds(t, tags, |t|, lt, name, named);
    }
  }

  /** The character that cannot continue an opening settles it. */
  lemma BadStart(t: Text, tags: seq<Text>, cursor: nat, lt: nat)
    requires ReadTo(t, tags, cursor, lt, None, false) && cursor < |t|
    requires t[cursor] != LESS && !IsSpace(t[cursor])
    ensures OpeningOf(t, tags).NotATag?
  {
    assert t[0..cursor] == t[..cursor];
    SkipSpaceTo(t, 0, cursor);
  }

  lemma BadAfterName(t: Text, tags: seq<Text>, cursor: nat, lt: nat, n: Text, named: bool)
    requires ReadTo(t, tags, cursor, lt, Some(n), named) && cursor < |t|
    requires if t[cursor] == GREATER || IsSpace(t[cursor]) then n !in tags else named || !IsLetter(t[cursor])
    ensures OpeningOf(t, tags).NotATag?
  {
    NameEnds(t, tags, cursor, lt, Some(n), named);
    if n in tags && !named {
      SkipSpaceTo(t, cursor, cursor);
    }
  }

  lemma BadLetter(t: Text, tags: seq<Text>, cursor: nat, lt: nat, n: Text)
    requires ReadTo(t, tags, cursor, lt, Some(n), false) && cursor < |t| && IsLetter(t[cursor])
    requires !SomeTagStartsWith(tags, n + [Lower(t[cursor])])
    ensures OpeningOf(t, tags).NotATag?
  {
    NameEnds(t, tags, cursor, lt, Some(n), false);
    var end := SkipLetters(t, lt + 1);
    assert forall k :: lt + 1 <= k <= cursor ==> IsLetter(t[k]) by {
      assert forall k :: lt + 1 <= k < cursor ==> t[k] == t[lt + 1..cursor][k - lt - 1];
    }
    var name := LowerAll(t[lt + 1..end]);
    assert name[..|n|] == n by {
      assert t[lt + 1..end][..|n|] == t[lt + 1..cursor];
    }
    assert n + [Lower(t[cursor])] <= name;
    assert !SomeTagStartsWith(tags, name);
    assert name !in tags;
  }

  lemma GoodEnd(t: Text, tags: seq<Text>, cursor: nat, lt: nat, n: Text, named: bool)
    requires ReadTo(t, tags, cursor, lt, Some(n), named) && cursor < |t|
    requires t[cursor] == GREATER && n in tags
    ensures OpeningOf(t, tags) == Tag(n, cursor + 1)
  {
    NameEnds(t, tags, cursor, lt, Some(n), named);
    if !named {
      SkipSpaceTo(t, cursor, cursor);
    }
  }

  lemma LeadingSpace(t: Text, tags: seq<Text>, cursor: nat, lt: nat)
    requires ReadTo(t, tags, cursor, lt, None, false) && cursor < |t| && IsSpace(t[cursor])
    ensures ReadTo(t, tags, cursor + 1, lt, None, false)
  {
  }

  lemma StartsName(t: Text, tags: seq<Text>, cursor: nat, lt: nat)
    requires ReadTo(t, tags, cursor, lt, None, false) && cursor < |t| && t[cursor] == LESS
    ensures ReadTo(t, tags, cursor + 1, cursor, Some([]), false)
    ensures Narrowed(tags, [], tags)
  {
    assert t[cursor + 1..cursor + 1] == [];
  }

  lemma LongerPrefix(n: Text, u: CodeUnit, c: Text)
    ensures n + [u] <= c <==> n <= c && |n| < |c| && c[|n|] == u
  {
    if n <= c && |n| < |c| {
      assert c[..|n|] == n;
      assert c[..|n| + 1] == n + [c[|n|]];
    }
  }

  lemma NarrowsOn(tags: seq<Text>, n: Text, candidates: seq<Text>, u: CodeUnit)
    requires Narrowed(tags, n, candidates)
    ensures var next := Narrow(candidates, |n|, u);
            if next == [] then !SomeTagStartsWith(tags, n + [u]) else Narrowed(tags, n + [u], next)
  {
    var next := Narrow(candidates, |n|, u);
    forall c ensures c in next <==> c in tags && n + [u] <= c {
      LongerPrefix(n, u, c);
    }
    if next == [] {
      forall k | 0 <= k < |tags| ensures !(n + [u] <= tags[k]) {
        assert tags[k] in tags;
      }
    } else {
      assert next[0] in next;
    }
  }

  lemma NextLetter(t: Text, tags: seq<Text>, cursor: nat, lt: nat, n: Text)
    requires ReadTo(t, tags, cursor, lt, Some(n), false) && cursor < |t| && IsLetter(t[cursor])
    ensures ReadTo(t, tags, cursor + 1, lt, Some(n + [Lower(t[cursor])]), false)
  {
    assert t[lt + 1..cursor + 1] == t[lt + 1..cursor] + [t[cursor]];
    assert LowerAll(t[lt + 1..cursor + 1]) == n + [Lower(t[cursor])];
  }

  lemma NextSpace(t: Text, tags: seq<Text>, cursor: nat, lt: nat, n: Text, named: bool)
    requires ReadTo(t, tags, cursor, lt, Some(n), named) && cursor < |t| && IsSpace(t[cursor]) && n in tags
    ensures ReadTo(t, tags, cursor + 1, lt, Some(n), true)
  {
    assert t[lt + 1 + |n|..cursor + 1] == t[lt + 1 + |n|..cursor] + [t[cursor]];
  }

  /** What was read stays read when the text grows. */
  lemma ReadStays(t: Text, u: Text, tags: seq<Text>, cursor: nat, lt: nat, name: Option<Text>, named: bool)
    requires ReadTo(t, tags, cursor, lt, name, named) && t <= u
    ensures ReadTo(u, tags, cursor, lt, name, named)
  {
    assert u[..cursor] == t[..cursor];
    if name.Some? {
      var end := lt + 1 + |name.value|;
      assert u[..lt] == t[..lt] && u[lt + 1..end] == t[lt + 1..end] && u[end..cursor] == t[end..cursor];
    }
  }

  // ---------------------------------------------------------------- the closing tag

  /** No closing tag starts at `i`, and none will. */
  ghost predicate Broken(t: Text, close: Text, i: nat) {
    i < |t| && !OnTheWay(t, close, i, |t|) && forall e: nat :: !Closes(t, close, i, e)
  }

  /** What the fields of the scanner say about the text up to `cursor`. */
  ghost predicate ScannedTo(t: Text, close: Text, body: nat, candidate: int, cursor: nat) {
    && body <= cursor <= |t|
    && (candidate == -1 || (body <= candidate <= cursor && OnTheWay(t, close, candidate, cursor)
                            && (candidate < cursor ==> t[candidate] == LESS)))
    && forall i :: body <= i < (if candidate >= 0 then candidate else cursor) ==> Broken(t, close, i)
  }

  lemma ScanStarts(t: Text, close: Text, body: nat)
    requires body <= |t|
    ensures ScannedTo(t, close, body, -1, body)
  {
  }

  lemma ScanBounds(t: Text, close: Text, body: nat, candidate: int, cursor: nat)
    requires ScannedTo(t, close, body, candidate, cursor)
    ensures body <= cursor <= |t| && (candidate == -1 || body <= candidate <= cursor)
  {
  }

  lemma NotLessIsBroken(t: Text, close: Text, i: nat)
    requires IsCloser(close) && i < |t| && t[i] != LESS
    ensures Broken(t, close, i)
  {
    assert !Fits(close, 0, t[i]);
  }

  /** The character that does not fit breaks the candidate and starts the next one at the earliest. */
  lemma CandidateBreaks(t: Text, close: Text, body: nat, candidate: nat, cursor: nat)
    requires IsCloser(close) && cursor < |t|
    requires ScannedTo(t, close, body, candidate, cursor)
    requires !Fits(close, cursor - candidate, t[cursor])
    ensures ScannedTo(t, close, body, -1, cursor)
  {
    assert Broken(t, close, candidate);
    forall i | candidate < i < cursor ensures Broken(t, close, i) {
      assert Fits(close, i - candidate, t[i]);
      NotLessIsBroken(t, close, i);
    }
  }

  lemma CandidateGoesOn(t: Text, close: Text, body: nat, candidate: nat, cursor: nat)
    requires IsCloser(close) && ScannedTo(t, close, body, candidate, cursor) && cursor < |t|
    requires Fits(close, cursor - candidate, t[cursor])
    requires !(cursor - candidate >= |close| && t[cursor] == GREATER)
    ensures ScannedTo(t, close, body, candidate, cursor + 1)
  {
  }

  lemma NextLess(t: Text, close: Text, body: nat, cursor: nat, at: nat)
    requires IsCloser(close) && ScannedTo(t, close, body, -1, cursor)
    requires cursor <= at <= |t| && LESS !in t[cursor..at]
    ensures ScannedTo(t, close, body, -1, at) && ScannedTo(t, close, body, at, at)
  {
    forall i | cursor <= i < at ensures Broken(t, close, i) {
      assert t[i] == t[cursor..at][i - cursor];
      NotLessIsBroken(t, close, i);
    }
  }

  lemma Found(t: Text, close: Text, body: nat, candidate: nat, cursor: nat)
    requires ScannedTo(t, close, body, candidate, cursor) && cursor < |t|
    requires cursor - candidate >= |close| && t[cursor] == GREATER
    ensures FirstClose(t, close, body) == Some((candidate, cursor + 1))
  {
    assert Closes(t, close, candidate, cursor + 1);
    hide FirstClose, EndOfCloser;
    var (i, e) := FirstClose(t, close, body).value;
    assert i < candidate ==> Broken(t, close, i);
    assert EndOfCloser(t, close, i) == Some(e);
    assert EndOfCloser(t, close, candidate) == Some(cursor + 1);
  }

  lemma NotFound(t: Text, close: Text, body: nat, candidate: int)
    requires IsCloser(close) && ScannedTo(t, close, body, candidate, |t|)
    ensures FirstClose(t, close, body).None?
    ensures HeldFrom(t, close, body) == if candidate >= 0 then candidate else |t|
  {
    var limit := if candidate >= 0 then candidate else |t|;
    forall i: nat, e: nat | body <= i ensures !Closes(t, close, i, e) {
      if i < limit {
        assert Broken(t, close, i);
      } else if candidate < i < |t| {
        assert Fits(close, i - candidate, t[i]);
        NotLessIsBroken(t, close, i);
      }
    }
    var held := HeldFrom(t, close, body);
    assert held < limit ==> Broken(t, close, held);
  }

  lemma ScanStays(t: Text, u: Text, close: Text, body: nat, candidate: int, cursor: nat)
    requires ScannedTo(t, close, body, candidate, cursor) && t <= u
    ensures ScannedTo(u, close, body, candidate, cursor)
  {
    forall i | body <= i < (if candidate >= 0 then candidate else cursor) ensures Broken(u, close, i) {
      assert Broken(t, close, i);
      var p :| i <= p < |t| && !(Fits(close, p - i, t[p]) && (p - i >= |close| ==> t[p] != GREATER));
      assert u[p] == t[p];
      forall e: nat ensures !Closes(u, close, i, e) {
        if Closes(u, close, i, e) {
          assert u == t + u[|t|..];
          BrokenStays(t, u[|t|..], close, i, e);
          assert false;
        }
      }
    }
  }

  // ---------------------------------------------------------------- the object

  class Splitter {
    const tags: seq<Text>
    var phase: Phase
    var name: Option<Text>
    var named: bool
    var candidates: seq<Text>
    var close: Text
    var bodyStart: nat
    var candidate: int
    var cursor: nat
    var closeStart: nat
    var closeEnd: nat

    /** The text of the last call, whether it was the last there will be, and where its `<` is. */
    ghost var seen: Text
    ghost var done: bool
    ghost var lt: nat
    /** Characters looked at so far, and calls made. */
    ghost var work: nat
    ghost var calls: nat

    ghost predicate ReadingOk(t: Text)
      reads `cursor, `lt, `name, `named, `candidates
    {
      && ReadTo(t, tags, cursor, lt, name, named)
      && (name.None? ==> !named)
      && (name.Some? ==> Narrowed(tags, name.value, candidates))
    }

    ghost predicate OpenOk(t: Text)
      reads `cursor, `name, `bodyStart, `close, `candidate
    {
      && name.Some? && OpeningOf(t, tags) == Tag(name.value, bodyStart) && close == Closer(name.value)
      && ScannedTo(t, close, bodyStart, candidate, cursor)
    }

    ghost predicate ClosedOk(t: Text)
      reads `name, `bodyStart, `close, `closeStart, `closeEnd
    {
      && name.Some? && OpeningOf(t, tags) == Tag(name.value, bodyStart) && close == Closer(name.value)
      && FirstClose(t, close, bodyStart) == Some((closeStart, closeEnd))
    }

    /** Every place passed was looked at; one looked at twice was a broken candidate, and each candidate breaks once. */
    ghost predicate WorkOk(limit: nat)
      reads `cursor, `phase, `candidate, `work, `calls
    {
      && cursor <= limit && cursor <= work
      && work + (if phase.Open? && candidate >= 0 then 1 else 0)
         <= 3 * cursor + calls + (if phase.NotTag? || phase.Closed? then 1 else 0)
    }

    ghost predicate StateOk(t: Text, last: bool)
      reads `phase, `cursor, `lt, `name, `named, `candidates, `bodyStart, `close, `candidate, `closeStart, `closeEnd
    {
      match phase
      case Reading => !last && cursor == |t| && ReadingOk(t) && OpeningOf(t, tags).Undecided?
      case NotTag => OpeningOf(t, tags).NotATag? || (last && OpeningOf(t, tags).Undecided?)
      case Open => cursor == |t| && OpenOk(t)
      case Closed => ClosedOk(t)
    }

    ghost predicate Valid()
      reads this
    {
      WorkOk(|seen|) && StateOk(seen, done)
    }

    constructor (tags: seq<Text>)
      ensures Valid() && seen == [] && !done && calls == 0
      ensures this.tags == LowerTags(tags)
    {
      this.tags := LowerTags(tags);
      phase, name, named, candidates, close := Reading, None, false, [], [];
      bodyStart, candidate, cursor, closeStart, closeEnd := 0, -1, 0, 0, 0;
      seen, done, lt, work, calls := [], false, 0, 0, 0;
    }

    /** Reads the character at the cursor where no name has started yet. */
    method ReadStart(text: Text)
      requires phase.Reading? && ReadingOk(text) && cursor < |text| && name.None? && work <= 3 * cursor + calls
      modifies `phase, `name, `candidates, `cursor, `lt, `work
      ensures old(cursor) <= cursor <= old(cursor) + 1 && cursor <= |text| && work == old(work) + 1
      ensures (phase.Reading? && cursor == old(cursor) + 1 && ReadingOk(text)) || (phase.NotTag? && OpeningOf(text, tags).NotATag?)
    {
      hide ReadTo, Narrowed, OpeningOf, IsSpace;
      var u := text[cursor];
      work := work + 1;
      if u == LESS {
        StartsName(text, tags, cursor, lt);
        name, candidates, lt := Some([]), tags, cursor;
      } else if !IsSpace(u) {
        BadStart(text, tags, cursor, lt);
        phase := NotTag;
        return;
      } else {
        LeadingSpace(text, tags, cursor, lt);
      }
      cursor := cursor + 1;
    }

    /** Reads the character at the cursor where it can end the name, or be one more letter of it. */
    method ReadName(text: Text)
      requires phase.Reading? && ReadingOk(text) && cursor < |text| && name.Some? && work <= 3 * cursor + calls
      requires text[cursor] != GREATER
      modifies `phase, `name, `named, `candidates, `cursor, `work
      ensures old(cursor) <= cursor <= old(cursor) + 1 && cursor <= |text| && work == old(work) + 1
      ensures (phase.Reading? && cursor == old(cursor) + 1 && ReadingOk(text)) || (phase.NotTag? && OpeningOf(text, tags).NotATag?)
    {
      hide ReadTo, Narrowed, OpeningOf, HasLength, Narrow, IsSpace, IsLetter, Lower, AllLetters;
      var u := text[cursor];
      work := work + 1;
      if IsSpace(u) {
        NameIsTag(tags, name.value, candidates);
        if !HasLength(candidates, |name.value|) {
          BadAfterName(text, tags, cursor, lt, name.value, named);
          phase := NotTag;
          return;
        }
        NextSpace(text, tags, cursor, lt, name.value, named);
        named := true;
      } else {
        if named || !IsLetter(u) {
          BadAfterName(text, tags, cursor, lt, name.value, named);
          phase := NotTag;
          return;
        }
        var lower := Lower(u);
        NarrowsOn(tags, name.value, candidates, lower);
        candidates := Narrow(candidates, |name.value|, lower);
        if candidates == [] {
          BadLetter(text, tags, cursor, lt, name.value);
          phase := NotTag;
          return;
        }
        NextLetter(text, tags, cursor, lt, name.value);
        name := Some(name.value + [lower]);
      }
      cursor := cursor + 1;
    }

    /** Reads on from where the last call stopped, until the opening is settled or the text ends. */
    method DecideStart(text: Text, finished: bool)
      requires phase.Reading? && ReadingOk(text) && WorkOk(|text|)
      modifies `phase, `name, `named, `candidates, `close, `bodyStart, `candidate, `cursor, `lt, `work
      ensures WorkOk(|text|)
      ensures phase.Open? || StateOk(text, finished)
      ensures phase.Open? ==> OpenOk(text)
      ensures !phase.Closed?
    {
      hide ReadTo, Narrowed, OpeningOf, HasLength, ScannedTo, AllLetters, Closer;
      while cursor < |text|
        invariant phase.Reading? && cursor <= |text| && cursor <= work <= 3 * cursor + calls && ReadingOk(text)
        decreases |text| - cursor
      {
        if name.None? {
          ReadStart(text);
          if phase.NotTag? {
            return;
          }
        } else if text[cursor] == GREATER {
          work := work + 1;
          NameIsTag(tags, name.value, candidates);
          if !HasLength(candidates, |name.value|) {
            BadAfterName(text, tags, cursor, lt, name.value, named);
            phase := NotTag;
            return;
          }
          GoodEnd(text, tags, cursor, lt, name.value, named);
          phase := Open;
          close := Closer(name.value);
          bodyStart := cursor + 1;
          cursor, candidate := bodyStart, -1;
          ScanStarts(text, close, bodyStart);
          return;
        } else {
          ReadName(text);
          if phase.NotTag? {
            return;
          }
        }
      }
      StillUndecided(text, tags, lt, name, named, candidates);
      if finished {
        phase := NotTag;
      }
    }

    /** Goes to the next `<`, or to the end when there is none. */
    method SeekCandidate(text: Text)
      requires candidate == -1 && cursor < |text| && IsCloser(close)
      requires ScannedTo(text, close, bodyStart, candidate, cursor)
      modifies `candidate, `cursor, `work
      ensures old(cursor) <= cursor <= |text| && work == old(work) + cursor - old(cursor)
      ensures candidate == -1 ==> cursor == |text|
      ensures candidate != -1 ==> candidate == cursor < |text| && text[cursor] == LESS
      ensures candidate != -1 ==> Fits(close, 0, text[cursor])
      ensures ScannedTo(text, close, bodyStart, candidate, cursor)
    {
      var at := IndexOf(text, LESS, cursor);
      NextLess(text, close, bodyStart, cursor, if at < 0 then |text| else at);
      work := work + (if at < 0 then |text| else at) - cursor;
      if at < 0 {
        cursor := |text|;
      } else {
        candidate := at;
        cursor := at;
      }
    }

    /** Reads on from where the last call stopped, until a closing tag ends or the text does. */
    method ScanClose(text: Text)
      requires phase.Open? && OpenOk(text) && WorkOk(|text|)
      modifies `phase, `candidate, `cursor, `closeStart, `closeEnd, `work
      ensures WorkOk(|text|)
      ensures (phase.Open? && cursor == |text| && OpenOk(text)) || (phase.Closed? && ClosedOk(text))
    {
      hide ScannedTo, OpeningOf, FirstClose, Fits, IsCloser, Closer, AllLetters;
      ScanBounds(text, close, bodyStart, candidate, cursor);
      CloserIsOne(name.value);
      while cursor < |text|
        invariant phase.Open? && ScannedTo(text, close, bodyStart, candidate, cursor)
        invariant bodyStart <= cursor <= |text| && (candidate == -1 || bodyStart <= candidate <= cursor)
        invariant cursor <= work && work + (if candidate >= 0 then 1 else 0) <= 3 * cursor + calls
        decreases |text| - cursor, candidate >= 0
      {
        work := work + 1;
        if candidate < 0 {
          SeekCandidate(text);
          if candidate < 0 {
            return;
          }
        }
        var u := text[cursor];
        var offset := cursor - candidate;
        if !Fits(close, offset, u) {
          CandidateBreaks(text, close, bodyStart, candidate, cursor);
          candidate := -1;
        } else if offset >= |close| && u == GREATER {
          Found(text, close, bodyStart, candidate, cursor);
          phase := Closed;
          closeStart := candidate;
          closeEnd := cursor + 1;
          return;
        } else {
          CandidateGoesOn(text, close, bodyStart, candidate, cursor);
          cursor := cursor + 1;
        }
      }
    }

    /** A longer text finds the fields as they should be for it. */
    lemma StateGrows(text: Text, finished: bool)
      requires Valid() && seen <= text && (done ==> finished && text == seen)
      ensures WorkOk(|text|)
      ensures match phase
        case Reading => ReadingOk(text)
        case Open => OpenOk(text)
        case _ => StateOk(text, finished)
    {
      var rest := text[|seen|..];
      assert text == seen + rest;
      if phase.Reading? {
        ReadStays(seen, text, tags, cursor, lt, name, named);
      } else if OpeningOf(seen, tags).Undecided? {
        assert text == seen;
      } else {
        OpeningStays(seen, rest, tags);
        if phase.Open? {
          ScanStays(seen, text, close, bodyStart, candidate, cursor);
        } else if phase.Closed? {
          CloserIsOne(name.value);
          CloseStays(seen, rest, close, bodyStart);
        }
      }
    }

    /** Brings the fields up to the text so far. */
    method Advance(text: Text, finished: bool)
      requires Valid() && seen <= text && (done ==> finished && text == seen)
      modifies this
      ensures Valid() && seen == text && done == finished && calls == old(calls) + 1
    {
      hide ReadTo, ScannedTo, Narrowed, OpeningOf, FirstClose, AllLetters, Closer;
      StateGrows(text, finished);
      seen, done, calls := text, finished, calls + 1;
      if phase.Reading? {
        DecideStart(text, finished);
      }
      if phase.Open? {
        ScanClose(text);
      }
    }

    /**
     * The split of the whole text so far.  Texts only grow from call to call, and after the
     * finished one there are no others; the answer is the one a fresh reading would give.
     */
    method Split(text: Text, finished: bool) returns (r: Split)
      requires Valid() && seen <= text && (done ==> finished && text == seen)
      modifies this
      ensures Valid() && seen == text && done == (old(done) || finished)
      ensures r == SplitOf(text, tags, finished)
      ensures calls == old(calls) + 1 && work <= 3 * |text| + calls + 1
    {
      hide ReadTo, ScannedTo, Narrowed, OpeningOf, FirstClose, HeldFrom, SplitOf, TrimStart, AllLetters, Closer, Closes;
      Advance(text, finished);
      match phase
      case Reading =>
        SplitUndecided(text, tags, finished);
        return Pending;
      case NotTag =>
        SplitUndecided(text, tags, finished);
        return Plain(text);
      case Closed =>
        SplitClosed(text, tags, finished, name.value, bodyStart, closeStart, closeEnd);
        return Reasoning(text[bodyStart..closeStart], TrimStart(text[closeEnd..]), true);
      case Open =>
        SplitUnclosed(text, tags, finished, name.value, bodyStart, candidate);
        var held := !finished && candidate >= 0;
        return Reasoning(text[bodyStart..if held then candidate else |text|], [], false);
    }
  }

  lemma SplitUndecided(t: Text, tags: seq<Text>, finished: bool)
    ensures OpeningOf(t, tags).Undecided? ==> SplitOf(t, tags, finished) == if finished then Plain(t) else Pending
    ensures OpeningOf(t, tags).NotATag? ==> SplitOf(t, tags, finished) == Plain(t)
  {
  }

  lemma SplitClosed(t: Text, tags: seq<Text>, finished: bool, name: Text, body: nat, start: nat, end: nat)
    requires OpeningOf(t, tags) == Tag(name, body)
    requires FirstClose(t, Closer(name), body) == Some((start, end))
    ensures body <= start < end <= |t|
    ensures SplitOf(t, tags, finished) == Reasoning(t[body..start], TrimStart(t[end..]), true)
  {
  }

  lemma SplitUnclosed(t: Text, tags: seq<Text>, finished: bool, name: Text, body: nat, candidate: int)
    requires OpeningOf(t, tags) == Tag(name, body)
    requires ScannedTo(t, Closer(name), body, candidate, |t|)
    ensures candidate == -1 || body <= candidate <= |t|
    ensures SplitOf(t, tags, finished)
         == Reasoning(t[body..if !finished && candidate >= 0 then candidate else |t|], [], false)
  {
    CloserIsOne(name);
    NotFound(t, Closer(name), body, candidate);
  }

  /** The first place of `u` at or after `from`, or -1. */
  method IndexOf(text: Text, u: CodeUnit, from: nat) returns (at: int)
    requires from <= |text|
    ensures at == -1 || from <= at < |text|
    ensures at >= 0 ==> text[at] == u && u !in text[from..at]
    ensures at < 0 ==> u !in text[from..]
  {
    at := from;
    while at < |text|
      invariant from <= at <= |text| && u !in text[from..at]
    {
      if text[at] == u {
        return;
      }
      assert text[from..at + 1] == text[from..at] + [text[at]];
      at := at + 1;
    }
    assert text[from..at] == text[from..];
    at := -1;
  }

  function LowerTags(tags: seq<Text>): seq<Text> {
    seq(|tags|, i requires 0 <= i < |tags| => LowerAll(tags[i]))
  }

  /** A reply is split at a tag in whatever case the tag is configured, opened and closed. */
  lemma CaseIsNoMatter(tags: seq<Text>, k: nat, start: Text, stop: Text, thinking: Text, reply: Text, finished: bool)
    requires k < |tags| && AllLetters(start) && LowerAll(start) == LowerAll(stop) == LowerAll(tags[k])
    requires start != [] && LESS !in thinking
    ensures SplitOf([LESS] + start + [GREATER] + thinking + ([LESS, SLASH] + stop + [GREATER]) + reply,
                    LowerTags(tags), finished)
         == Reasoning(thinking, TrimStart(reply), true)
  {
    hide SplitOf, IsSpace, IsLetter, Lower, TrimStart;
    var opening, closing := [LESS] + start + [GREATER], [LESS, SLASH] + stop + [GREATER];
    var end, n := 1 + |start|, 2 + |stop|;
    assert opening[1..end] == start && opening[..0] == [] && opening[end..|opening| - 1] == [];
    assert closing[2..n] == stop && closing[n..|closing| - 1] == [];
    assert LowerTags(tags)[k] == LowerAll(start);
    WrittenSplits(opening, LowerTags(tags), 0, end, thinking, closing, n, reply, finished);
  }

  /** One reading of a text that is all there. */
  method SplitInlineReasoning(text: Text, tags: seq<Text>, finished: bool) returns (r: Split)
    ensures r == SplitOf(text, LowerTags(tags), finished)
  {
    var splitter := new Splitter(tags);
    r := splitter.Split(text, finished);
  }

  /**
   * However a text arrives in pieces, each answer is that of a fresh reading of the text so far,
   * each answer only adds to the one before, and the whole stream costs linear work.
   */
  method Stream(pieces: seq<Text>, tags: seq<Text>) returns (answers: seq<Split>, ghost work: nat)
    ensures |answers| == |pieces| + 1
    ensures forall k :: 0 <= k < |pieces| ==> answers[k] == SplitOf(Joined(pieces[..k + 1]), LowerTags(tags), false)
    ensures answers[|pieces|] == SplitOf(Joined(pieces), LowerTags(tags), true)
    ensures forall k :: 0 <= k < |pieces| ==> Grows(answers[k], answers[k + 1])
    ensures work <= 3 * |Joined(pieces)| + |pieces| + 2
  {
    hide SplitOf, Grows, OpeningOf, FirstClose, ReadTo, ScannedTo, Narrowed, LowerTags;
    var splitter := new Splitter(tags);
    var text: Text := [];
    answers := [];
    for i := 0 to |pieces|
      invariant splitter.Valid() && fresh(splitter) && splitter.tags == LowerTags(tags)
      invariant !splitter.done && splitter.seen == text == Joined(pieces[..i]) && splitter.calls == i
      invariant |answers| == i
      invariant forall k :: 0 <= k < i ==> answers[k] == SplitOf(Joined(pieces[..k + 1]), LowerTags(tags), false)
      invariant forall k :: 0 <= k < i - 1 ==> Grows(answers[k], answers[k + 1])
    {
      assert pieces[..i + 1][..i] == pieces[..i];
      if i > 0 {
        SplitGrows(text, pieces[i], splitter.tags, false);
      }
      text := text + pieces[i];
      var answer := splitter.Split(text, false);
      answers := answers + [answer];
    }
    assert pieces[..|pieces|] == pieces;
    if pieces != [] {
      SplitGrows(text, [], splitter.tags, true);
      assert text + [] == text;
    }
    var last := splitter.Split(text, true);
    answers := answers + [last];
    work := splitter.work;
  }
}
