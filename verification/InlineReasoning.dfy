/** What a leading reasoning tag is, said about the whole text at once. */
module InlineReasoning {
  import opened Basics
  import opened CodeUnits

  /** How far a reply's opening has been read: undecided, not a tag, or a tag whose body starts here. */
  datatype Opening = Undecided | NotATag | Tag(name: Text, body: nat)

  datatype Split =
    | Pending
    | Plain(text: Text)
    | Reasoning(thinking: Text, reply: Text, closed: bool)

  function SkipSpace(t: Text, i: nat): (j: nat)
    requires i <= |t|
    ensures i <= j <= |t| && AllSpace(t[i..j]) && (j < |t| ==> !IsSpace(t[j]))
    decreases |t| - i
  {
    if i < |t| && IsSpace(t[i]) then SkipSpace(t, i + 1) else i
  }

  predicate AllLetters(t: Text) {
    forall i :: 0 <= i < |t| ==> IsLetter(t[i])
  }

  function SkipLetters(t: Text, i: nat): (j: nat)
    requires i <= |t|
    ensures i <= j <= |t| && AllLetters(t[i..j]) && (j < |t| ==> !IsLetter(t[j]))
    decreases |t| - i
  {
    if i < |t| && IsLetter(t[i]) then SkipLetters(t, i + 1) else i
  }

  predicate SomeTagStartsWith(tags: seq<Text>, name: Text) {
    exists k :: 0 <= k < |tags| && name <= tags[k]
  }

  /** White space, `<`, letters that spell a tag in any case, white space, `>`. */
  function OpeningOf(t: Text, tags: seq<Text>): (o: Opening)
    ensures o.Tag? ==> o.body <= |t| && AllLetters(o.name)
  {
    var lt := SkipSpace(t, 0);
    if lt == |t| then Undecided
    else if t[lt] != LESS then NotATag
    else
      var end := SkipLetters(t, lt + 1);
      var name := LowerAll(t[lt + 1..end]);
      if end == |t| then if name == [] || SomeTagStartsWith(tags, name) then Undecided else NotATag
      else if name !in tags then NotATag
      else
        var gt := SkipSpace(t, end);
        if gt == |t| then Undecided
        else if t[gt] == GREATER then Tag(name, gt + 1)
        else NotATag
  }

  function Closer(name: Text): Text {
    [LESS, SLASH] + name
  }

  /** May `u` stand `offset` places into a closing tag? */
  predicate Fits(close: Text, offset: nat, u: CodeUnit) {
    if offset < |close| then Lower(u) == close[offset] else u == GREATER || IsSpace(u)
  }

  /** From `i` up to `j` this is the start of a closing tag that has not ended yet. */
  predicate OnTheWay(t: Text, close: Text, i: nat, j: nat)
    requires i <= j <= |t|
  {
    forall p :: i <= p < j ==> Fits(close, p - i, t[p]) && (p - i >= |close| ==> t[p] != GREATER)
  }

  /** A closing tag starts at `i` and ends just before `e`. */
  predicate Closes(t: Text, close: Text, i: nat, e: nat) {
    i + |close| < e <= |t| && t[e - 1] == GREATER && OnTheWay(t, close, i, e - 1)
  }

  function EndOfCloser(t: Text, close: Text, i: nat): (r: Option<nat>)
    requires i <= |t|
    ensures r.Some? ==> Closes(t, close, i, r.value)
    ensures forall e: nat :: Closes(t, close, i, e) ==> r == Some(e)
  {
    if i + |close| > |t| || !OnTheWay(t, close, i, i + |close|) then None
    else
      var e := SkipSpace(t, i + |close|);
      if e < |t| && t[e] == GREATER then
        assert AllSpace(t[i + |close|..e]);
        assert forall p :: i + |close| <= p < e ==> t[p] == t[i + |close|..e][p - i - |close|];
        Some(e + 1)
      else None
  }

  /** The leftmost closing tag from `from` on. */
  function FirstClose(t: Text, close: Text, from: nat): (r: Option<(nat, nat)>)
    requires from <= |t|
    ensures r.Some? ==> from <= r.value.0 && Closes(t, close, r.value.0, r.value.1)
    ensures r.Some? ==> forall i: nat, e: nat :: from <= i < r.value.0 ==> !Closes(t, close, i, e)
    ensures r.None? ==> forall i: nat, e: nat :: from <= i ==> !Closes(t, close, i, e)
    decreases |t| - from
  {
    if from == |t| then None
    else if EndOfCloser(t, close, from).Some? then Some((from, EndOfCloser(t, close, from).value))
    else FirstClose(t, close, from + 1)
  }

  /** Where an unfinished closing tag at the end of the text starts, or the end of the text. */
  function HeldFrom(t: Text, close: Text, from: nat): (h: nat)
    requires from <= |t|
    ensures from <= h <= |t| && OnTheWay(t, close, h, |t|)
    ensures forall i :: from <= i < h ==> !OnTheWay(t, close, i, |t|)
    decreases |t| - from
  {
    if from == |t| || OnTheWay(t, close, from, |t|) then from else HeldFrom(t, close, from + 1)
  }

  /** The split of the whole text; `finished` means nothing will follow. */
  function SplitOf(t: Text, tags: seq<Text>, finished: bool): Split {
    match OpeningOf(t, tags)
    case Undecided => if finished then Plain(t) else Pending
    case NotATag => Plain(t)
    case Tag(name, body) =>
      var close := Closer(name);
      match FirstClose(t, close, body)
      case Some((start, end)) => Reasoning(t[body..start], TrimStart(t[end..]), true)
      case None => Reasoning(t[body..if finished then |t| else HeldFrom(t, close, body)], [], false)
  }

  // ---------------------------------------------------------------- the opening, and what may follow it

  /** A complete opening tag: `<` at `lt`, the name up to `end`, and `>` just before `body`. */
  ghost predicate IsOpening(t: Text, tags: seq<Text>, lt: nat, end: nat, body: nat) {
    && lt < end < body <= |t|
    && AllSpace(t[..lt]) && t[lt] == LESS
    && AllLetters(t[lt + 1..end]) && LowerAll(t[lt + 1..end]) in tags
    && AllSpace(t[end..body - 1]) && t[body - 1] == GREATER
  }

  lemma {:induction false} SkipSpaceTo(t: Text, i: nat, j: nat)
    requires i <= j <= |t| && AllSpace(t[i..j]) && (j < |t| ==> !IsSpace(t[j]))
    ensures SkipSpace(t, i) == j
    decreases j - i
  {
    if i < j {
      assert t[i] == t[i..j][0];
      assert t[i + 1..j] == t[i..j][1..];
      SkipSpaceTo(t, i + 1, j);
    }
  }

  lemma {:induction false} SkipLettersTo(t: Text, i: nat, j: nat)
    requires i <= j <= |t| && AllLetters(t[i..j]) && (j < |t| ==> !IsLetter(t[j]))
    ensures SkipLetters(t, i) == j
    decreases j - i
  {
    if i < j {
      assert t[i] == t[i..j][0];
      assert t[i + 1..j] == t[i..j][1..];
      SkipLettersTo(t, i + 1, j);
    }
  }

  lemma ReadsOpening(t: Text, tags: seq<Text>, lt: nat, end: nat, body: nat)
    requires IsOpening(t, tags, lt, end, body)
    ensures OpeningOf(t, tags) == Tag(LowerAll(t[lt + 1..end]), body)
  {
    assert t[0..lt] == t[..lt];
    SkipSpaceTo(t, 0, lt);
    if end < body - 1 {
      assert IsSpace(t[end..body - 1][0]);
    }
    SkipLettersTo(t, lt + 1, end);
    SkipSpaceTo(t, end, body - 1);
  }

  /** The reading finds a tag exactly where there is one. */
  lemma TagExactlyWhen(t: Text, tags: seq<Text>, name: Text, body: nat)
    ensures OpeningOf(t, tags) == Tag(name, body) <==>
            exists lt: nat, end: nat :: IsOpening(t, tags, lt, end, body) && name == LowerAll(t[lt + 1..end])
  {
    if OpeningOf(t, tags) == Tag(name, body) {
      var lt := SkipSpace(t, 0);
      var end := SkipLetters(t, lt + 1);
      assert t[0..lt] == t[..lt];
      assert IsOpening(t, tags, lt, end, body);
    }
    if lt: nat, end: nat :| IsOpening(t, tags, lt, end, body) && name == LowerAll(t[lt + 1..end]) {
      ReadsOpening(t, tags, lt, end, body);
    }
  }

  lemma LettersReachOn(t: Text, more: Text, i: nat)
    requires i <= |t| && SkipLetters(t, i) == |t|
    ensures |t| <= SkipLetters(t + more, i)
    ensures t[i..] <= (t + more)[i..SkipLetters(t + more, i)]
  {
    var u := t + more;
    forall k | i <= k < |t| ensures IsLetter(u[k]) {
      assert u[k] == t[i..|t|][k - i];
    }
  }

  /** A name that starts no tag starts none when more letters follow it. */
  lemma WrongNameStays(t: Text, more: Text, tags: seq<Text>, lt: nat)
    requires lt < |t| && SkipLetters(t, lt + 1) == |t|
    requires var name := LowerAll(t[lt + 1..|t|]); name != [] && !SomeTagStartsWith(tags, name)
    ensures var u := t + more;
            var name := LowerAll(u[lt + 1..SkipLetters(u, lt + 1)]);
            name != [] && name !in tags && !SomeTagStartsWith(tags, name)
  {
    hide SkipLetters, Lower;
    var u := t + more;
    LettersReachOn(t, more, lt + 1);
    var front, whole := t[lt + 1..], u[lt + 1..SkipLetters(u, lt + 1)];
    assert t[lt + 1..|t|] == front;
    assert LowerAll(front) <= LowerAll(whole) by {
      assert forall i :: 0 <= i < |front| ==> whole[i] == front[i];
    }
    forall k | 0 <= k < |tags| ensures !(LowerAll(whole) <= tags[k]) {
      assert !(LowerAll(front) <= tags[k]);
    }
  }

  /** Once decided, an opening stays as it is however the text goes on. */
  lemma OpeningStays(t: Text, more: Text, tags: seq<Text>)
    requires !OpeningOf(t, tags).Undecided?
    ensures OpeningOf(t + more, tags) == OpeningOf(t, tags)
  {
    hide IsSpace, IsLetter, Lower, AllSpace, AllLetters, SkipSpace, SkipLetters, SomeTagStartsWith;
    var u := t + more;
    var lt := SkipSpace(t, 0);
    assert t[0..lt] == u[0..lt];
    SkipSpaceTo(u, 0, lt);
    if t[lt] == LESS {
      var end := SkipLetters(t, lt + 1);
      if end < |t| {
        assert t[lt + 1..end] == u[lt + 1..end];
        SkipLettersTo(u, lt + 1, end);
        if LowerAll(t[lt + 1..end]) in tags {
          var gt := SkipSpace(t, end);
          assert t[end..gt] == u[end..gt];
          SkipSpaceTo(u, end, gt);
        }
      } else {
        WrongNameStays(t, more, tags, lt);
      }
    }
  }

  /** Tag names as they are configured: lower-case letters. */
  predicate PlainNames(tags: seq<Text>) {
    tags != [] && forall k :: 0 <= k < |tags| ==> AllLetters(tags[k]) && LowerAll(tags[k]) == tags[k]
  }

  /** The opening is left undecided exactly while some continuation would still make it a tag. */
  lemma UndecidedExactlyWhen(t: Text, tags: seq<Text>)
    requires PlainNames(tags)
    ensures OpeningOf(t, tags).Undecided? <==>
            !OpeningOf(t, tags).Tag? && exists more :: OpeningOf(t + more, tags).Tag?
  {
    var o := OpeningOf(t, tags);
    if o.NotATag? {
      forall more ensures !OpeningOf(t + more, tags).Tag? {
        OpeningStays(t, more, tags);
      }
    }
    if o.Undecided? {
      var more := Completion(t, tags);
      assert OpeningOf(t + more, tags).Tag?;
    }
  }

  lemma CompletesName(t: Text, tags: seq<Text>, lt: nat, k: nat) returns (more: Text)
    requires PlainNames(tags) && k < |tags| && lt < |t| && AllSpace(t[..lt]) && t[lt] == LESS
    requires AllLetters(t[lt + 1..]) && LowerAll(t[lt + 1..]) <= tags[k]
    ensures OpeningOf(t + more, tags).Tag?
  {
    var name := t[lt + 1..];
    var rest := tags[k][|name|..];
    more := rest + [GREATER];
    var u := t + more;
    var far := lt + 1 + |tags[k]|;
    assert u[..lt] == t[..lt];
    assert u[lt + 1..far] == name + rest;
    assert LowerAll(name + rest) == LowerAll(name) + LowerAll(rest) == tags[k];
    assert u[far..|u| - 1] == [];
    ReadsOpening(u, tags, lt, far, |u|);
  }

  lemma CompletesSpace(t: Text, tags: seq<Text>, lt: nat, end: nat)
    requires lt < end <= |t| && AllSpace(t[..lt]) && t[lt] == LESS
    requires AllLetters(t[lt + 1..end]) && LowerAll(t[lt + 1..end]) in tags && AllSpace(t[end..])
    ensures OpeningOf(t + [GREATER], tags).Tag?
  {
    var u := t + [GREATER];
    assert u[..lt] == t[..lt] && u[lt + 1..end] == t[lt + 1..end] && u[end..|u| - 1] == t[end..];
    ReadsOpening(u, tags, lt, end, |u|);
  }

  /** What would complete an undecided opening. */
  lemma Completion(t: Text, tags: seq<Text>) returns (more: Text)
    requires PlainNames(tags) && OpeningOf(t, tags).Undecided?
    ensures OpeningOf(t + more, tags).Tag?
  {
    hide IsSpace, IsLetter, IsOpening, SkipSpace, SkipLetters, Lower;
    var lt := SkipSpace(t, 0);
    assert t[0..lt] == t[..lt];
    if lt == |t| {
      assert t + [LESS] + [] == t + [LESS];
      more := CompletesName(t + [LESS], tags, lt, 0);
      assert t + [LESS] + more == t + ([LESS] + more);
      more := [LESS] + more;
    } else {
      var end := SkipLetters(t, lt + 1);
      if end == |t| {
        assert t[lt + 1..] == t[lt + 1..end];
        var k :| 0 <= k < |tags| && LowerAll(t[lt + 1..end]) <= tags[k];
        more := CompletesName(t, tags, lt, k);
      } else {
        more := [GREATER];
        assert t[end..|t|] == t[end..];
        CompletesSpace(t, tags, lt, end);
      }
    }
  }

  // ---------------------------------------------------------------- the closing tag, and growth

  /** A closing tag has one `<`, at its start. */
  ghost predicate IsCloser(close: Text) {
    |close| > 0 && close[0] == LESS && forall i :: 0 < i < |close| ==> close[i] != LESS
  }

  lemma CloserIsOne(name: Text)
    requires AllLetters(name)
    ensures IsCloser(Closer(name))
  {
  }

  /** A complete closing tag: `</` at `i`, the name up to `k` in any case, white space, and `>` just before `e`. */
  predicate IsClosing(t: Text, name: Text, i: nat, k: nat, e: nat) {
    && i + 2 <= k < e <= |t|
    && t[i] == LESS && t[i + 1] == SLASH && LowerAll(t[i + 2..k]) == name
    && AllSpace(t[k..e - 1]) && t[e - 1] == GREATER
  }

  lemma ClosesIsClosing(t: Text, name: Text, i: nat, e: nat)
    requires Closes(t, Closer(name), i, e)
    ensures IsClosing(t, name, i, i + 2 + |name|, e)
  {
    hide IsSpace;
    var close, k := Closer(name), i + 2 + |name|;
    assert Fits(close, 0, t[i]) && Fits(close, 1, t[i + 1]);
    forall p | i + 2 <= p < k ensures Lower(t[p]) == name[p - i - 2] {
      assert Fits(close, p - i, t[p]);
    }
    assert LowerAll(t[i + 2..k]) == name;
    forall p | k <= p < e - 1 ensures IsSpace(t[p]) {
      assert Fits(close, p - i, t[p]) && t[p] != GREATER;
    }
  }

  lemma ClosingCloses(t: Text, name: Text, i: nat, k: nat, e: nat)
    requires IsClosing(t, name, i, k, e)
    ensures Closes(t, Closer(name), i, e)
  {
    var close := Closer(name);
    assert |name| == k - i - 2;
    forall p | i <= p < e - 1 ensures Fits(close, p - i, t[p]) && (p - i >= |close| ==> t[p] != GREATER) {
      if i + 2 <= p < k {
        assert t[p] == t[i + 2..k][p - i - 2];
      } else if k <= p {
        assert IsSpace(t[k..e - 1][p - k]);
      }
    }
  }

  /** No closing tag starts from `from` on and before `i`. */
  ghost predicate NoneBefore(t: Text, name: Text, from: nat, i: nat) {
    forall j: nat, k: nat, f: nat :: from <= j < i ==> !IsClosing(t, name, j, k, f)
  }

  /** The closing tag that is found is the leftmost one, character by character. */
  lemma ClosingTagExactlyWhen(t: Text, name: Text, from: nat, i: nat, e: nat)
    requires from <= |t|
    ensures FirstClose(t, Closer(name), from) == Some((i, e)) <==>
            from <= i && (exists k: nat :: IsClosing(t, name, i, k, e)) && NoneBefore(t, name, from, i)
  {
    hide FirstClose, Closes, IsClosing, Closer;
    var close := Closer(name);
    var first := FirstClose(t, close, from);
    if first == Some((i, e)) {
      ClosesIsClosing(t, name, i, e);
      forall j: nat, k: nat, f: nat | from <= j < i ensures !IsClosing(t, name, j, k, f) {
        if IsClosing(t, name, j, k, f) {
          ClosingCloses(t, name, j, k, f);
        }
      }
    }
    if k: nat :| from <= i && IsClosing(t, name, i, k, e) && NoneBefore(t, name, from, i) {
      ClosingCloses(t, name, i, k, e);
      var (j, f) := first.value;
      ClosesIsClosing(t, name, j, f);
      assert j >= i;
      OneEnd(t, close, i, e, f);
    }
  }

  lemma OneEnd(t: Text, close: Text, i: nat, e: nat, f: nat)
    requires Closes(t, close, i, e)
    ensures Closes(t, close, i, f) ==> e == f
  {
    assert EndOfCloser(t, close, i) == Some(e);
  }

  /** There is none exactly where no place reads as one. */
  lemma NoClosingTagExactlyWhen(t: Text, name: Text, from: nat)
    requires from <= |t|
    ensures FirstClose(t, Closer(name), from).None? <==> NoneBefore(t, name, from, |t|)
  {
    hide FirstClose, Closes, IsClosing, Closer;
    var first := FirstClose(t, Closer(name), from);
    if first.Some? {
      ClosingTagExactlyWhen(t, name, from, first.value.0, first.value.1);
      var k: nat :| IsClosing(t, name, first.value.0, k, first.value.1);
      assert first.value.0 < |t| by { ClosingIsInside(t, name, first.value.0, k, first.value.1); }
    } else {
      forall j: nat, k: nat, f: nat | from <= j < |t| ensures !IsClosing(t, name, j, k, f) {
        if IsClosing(t, name, j, k, f) {
          ClosingCloses(t, name, j, k, f);
        }
      }
    }
  }

  lemma ClosingIsInside(t: Text, name: Text, i: nat, k: nat, e: nat)
    requires IsClosing(t, name, i, k, e)
    ensures i < |t|
  {
  }

  /**
   * An opening tag, thinking without `<`, a closing tag of that name in any case, and a reply are split into the
   * thinking and the reply, whose leading white space goes.
   */
  lemma WrittenSplits(opening: Text, tags: seq<Text>, lt: nat, end: nat, thinking: Text, closing: Text, k: nat,
      reply: Text, finished: bool)
    requires IsOpening(opening, tags, lt, end, |opening|) && LESS !in thinking
    requires IsClosing(closing, LowerAll(opening[lt + 1..end]), 0, k, |closing|)
    ensures SplitOf(opening + thinking + closing + reply, tags, finished)
         == Reasoning(thinking, TrimStart(reply), true)
  {
    hide OpeningOf, FirstClose, Closer, TrimStart, IsClosing, AllSpace, AllLetters;
    var rest := thinking + closing + reply;
    var t := opening + rest;
    var name := LowerAll(opening[lt + 1..end]);
    var body := |opening|;
    var i, e := body + |thinking|, body + |thinking| + |closing|;
    assert opening + thinking + closing + reply == t;
    OpeningAhead(opening, tags, lt, end, rest);
    assert t[body..i] == thinking && t[i..e] == closing && t[e..] == reply;
    ClosingBehind(t, name, body, i, k, e);
  }

  lemma OpeningAhead(opening: Text, tags: seq<Text>, lt: nat, end: nat, rest: Text)
    requires IsOpening(opening, tags, lt, end, |opening|)
    ensures OpeningOf(opening + rest, tags) == Tag(LowerAll(opening[lt + 1..end]), |opening|)
  {
    hide OpeningOf, IsSpace, IsLetter, Lower;
    var t := opening + rest;
    var body := |opening|;
    assert t[..lt] == opening[..lt] && t[lt + 1..end] == opening[lt + 1..end];
    assert t[end..body - 1] == opening[end..body - 1];
    ReadsOpening(t, tags, lt, end, body);
  }

  lemma ClosingBehind(t: Text, name: Text, body: nat, i: nat, k: nat, e: nat)
    requires body <= i <= e <= |t| && LESS !in t[body..i] && IsClosing(t[i..e], name, 0, k, e - i)
    ensures FirstClose(t, Closer(name), body) == Some((i, e))
  {
    hide FirstClose, Closer, IsSpace, Lower, AllSpace, LowerAll;
    ClosingMoves(t, name, i, k, e - i);
    forall j: nat | body <= j < i ensures t[j] != LESS {
      assert t[j] == t[body..i][j - body];
    }
    ClosingTagExactlyWhen(t, name, body, i, e);
  }

  lemma ClosingMoves(t: Text, name: Text, i: nat, k: nat, n: nat)
    requires i + n <= |t| && IsClosing(t[i..i + n], name, 0, k, n)
    ensures IsClosing(t, name, i, i + k, i + n)
  {
    var c := t[i..i + n];
    assert forall q :: 0 <= q < n ==> c[q] == t[i + q];
    assert c[2..k] == t[i + 2..i + k];
    assert c[k..n - 1] == t[i + k..i + n - 1];
    assert c[0] == t[i] && c[1] == t[i + 1] && c[n - 1] == t[i + n - 1];
  }

  /** Of a finished text nothing is lost but tags and the white space around the reply's start. */
  lemma NothingIsLost(t: Text, tags: seq<Text>)
    ensures match SplitOf(t, tags, true)
            case Pending => false
            case Plain(text) => text == t && !OpeningOf(t, tags).Tag?
            case Reasoning(thinking, reply, closed) =>
              exists body: nat, name: Text ::
                && OpeningOf(t, tags) == Tag(name, body) && body + |thinking| <= |t|
                && t[body..body + |thinking|] == thinking
                && (if closed then ClosedBy(t, name, body + |thinking|, reply)
                    else body + |thinking| == |t| && reply == [])
  {
    hide IsSpace, IsLetter, Lower, TrimStart, OpeningOf, FirstClose, HeldFrom, IsClosing;
    var o := OpeningOf(t, tags);
    if o.Tag? {
      var close := Closer(o.name);
      if FirstClose(t, close, o.body).Some? {
        var (i, e) := FirstClose(t, close, o.body).value;
        ClosingTagExactlyWhen(t, o.name, o.body, i, e);
        var k: nat :| IsClosing(t, o.name, i, k, e);
        TrimStartIs(t[e..]);
        var n := |t[e..]| - |TrimStart(t[e..])|;
        assert t[e..][..n] == t[e..e + n] && t[e..][n..] == t[e + n..];
        assert ClosedBy(t, o.name, i, TrimStart(t[e..]));
      }
    }
  }

  /** At `i` a closing tag, then white space, then the reply to the end. */
  ghost predicate ClosedBy(t: Text, name: Text, i: nat, reply: Text) {
    exists k: nat, e: nat, r: nat ::
      e <= r <= |t| && IsClosing(t, name, i, k, e) && AllSpace(t[e..r]) && reply == t[r..]
  }

  /** What is held back is held for a reason: some continuation makes a closing tag of it. */
  lemma HeldExactlyWhen(t: Text, name: Text, i: nat)
    requires i <= |t| && LowerAll(name) == name
    requires forall e: nat :: !Closes(t, Closer(name), i, e)
    ensures OnTheWay(t, Closer(name), i, |t|) <==> exists more, e: nat :: Closes(t + more, Closer(name), i, e)
  {
    hide IsSpace, Lower;
    var close := Closer(name);
    if OnTheWay(t, close, i, |t|) {
      var done := |t| - i;
      var more := (if done < |close| then close[done..] else []) + [GREATER];
      var u := t + more;
      CloserIsLower(name);
      forall p | i <= p < |u| - 1 ensures Fits(close, p - i, u[p]) && (p - i >= |close| ==> u[p] != GREATER) {
        if p < |t| {
          assert u[p] == t[p];
        } else {
          assert u[p] == close[p - i];
        }
      }
      assert Closes(u, close, i, |u|);
    }
    if more, e: nat :| Closes(t + more, close, i, e) {
      if !OnTheWay(t, close, i, |t|) {
        BrokenStays(t, more, close, i, e);
      }
    }
  }

  lemma CloserIsLower(name: Text)
    requires LowerAll(name) == name
    ensures forall q :: 0 <= q < |Closer(name)| ==> Lower(Closer(name)[q]) == Closer(name)[q]
  {
  }

  /** What broke a candidate before the end of the text stays in the text. */
  lemma BrokenStays(t: Text, more: Text, close: Text, i: nat, e: nat)
    requires i <= |t| && !OnTheWay(t, close, i, |t|)
    requires Closes(t + more, close, i, e)
    ensures Closes(t, close, i, e)
  {
    if e <= |t| {
      assert forall p :: i <= p < e ==> t[p] == (t + more)[p];
    } else {
      assert forall p :: i <= p < |t| ==> t[p] == (t + more)[p];
      assert OnTheWay(t, close, i, |t|);
    }
  }

  /** Only one place can be the start of what the text ends with. */
  lemma OneCandidate(t: Text, close: Text, i: nat, j: nat, e: nat)
    requires IsCloser(close) && i < j < e <= |t|
    requires OnTheWay(t, close, j, e)
    ensures !OnTheWay(t, close, i, e)
  {
    assert t[j] == LESS;
    assert !Fits(close, j - i, t[j]);
  }

  lemma CloseStays(t: Text, more: Text, close: Text, from: nat)
    requires IsCloser(close) && from <= |t| && FirstClose(t, close, from).Some?
    ensures FirstClose(t + more, close, from) == FirstClose(t, close, from)
  {
    var (i, e) := FirstClose(t, close, from).value;
    var u := t + more;
    assert Closes(u, close, i, e) by {
      assert forall p :: i <= p < e ==> t[p] == u[p];
    }
    var (j, f) := FirstClose(u, close, from).value;
    if j < i {
      OneCandidate(t, close, j, i, e - 1);
      BrokenStays(t, more, close, j, f);
      assert false;
    }
    assert EndOfCloser(u, close, i) == Some(e);
  }

  /** Nothing before the held part can ever become a closing tag, nor be held again. */
  lemma HeldIsEnough(t: Text, more: Text, close: Text, from: nat)
    requires from <= |t| && FirstClose(t, close, from).None?
    ensures var later := FirstClose(t + more, close, from);
            if later.Some? then HeldFrom(t, close, from) <= later.value.0
            else HeldFrom(t, close, from) <= HeldFrom(t + more, close, from)
  {
    var u := t + more;
    var later := FirstClose(u, close, from);
    var h := HeldFrom(t, close, from);
    if later.Some? {
      if later.value.0 < h {
        BrokenStays(t, more, close, later.value.0, later.value.1);
        assert false;
      }
    } else {
      var g := HeldFrom(u, close, from);
      assert forall p :: 0 <= p < |t| ==> t[p] == u[p];
      assert g <= |t| ==> OnTheWay(t, close, g, |t|);
    }
  }

  /** What was shown is never taken back: it is only added to, at the end. */
  ghost predicate Grows(a: Split, b: Split) {
    match a
    case Pending => true
    case Plain(x) => b.Plain? && x <= b.text
    case Reasoning(thinking, reply, closed) =>
      && b.Reasoning? && thinking <= b.thinking && reply <= b.reply
      && (closed ==> b.closed && thinking == b.thinking)
  }

  lemma RepliesGrow(t: Text, more: Text, body: nat, i: nat, e: nat)
    requires body <= i < e <= |t|
    ensures t[body..i] == (t + more)[body..i] && TrimStart(t[e..]) <= TrimStart((t + more)[e..])
  {
    assert (t + more)[e..] == t[e..] + more;
    TrimStartGrows(t[e..], more);
  }

  lemma UnclosedGrows(t: Text, more: Text, close: Text, body: nat, i: nat)
    requires body <= |t| && FirstClose(t, close, body).None?
    requires i == match FirstClose(t + more, close, body)
                  case Some(r) => r.0
                  case None => HeldFrom(t + more, close, body)
    ensures t[body..HeldFrom(t, close, body)] <= (t + more)[body..i]
    ensures t[body..HeldFrom(t, close, body)] <= (t + more)[body..]
  {
    HeldIsEnough(t, more, close, body);
  }

  lemma SplitGrows(t: Text, more: Text, tags: seq<Text>, finished: bool)
    ensures Grows(SplitOf(t, tags, false), SplitOf(t + more, tags, finished))
  {
    var o := OpeningOf(t, tags);
    if !o.Undecided? {
      OpeningStays(t, more, tags);
    }
    if o.Tag? {
      var close := Closer(o.name);
      match FirstClose(t, close, o.body)
      case Some((i, e)) =>
        CloserIsOne(o.name);
        CloseStays(t, more, close, o.body);
        RepliesGrow(t, more, o.body, i, e);
      case None =>
        var i := match FirstClose(t + more, close, o.body)
          case Some(r) => r.0
          case None => HeldFrom(t + more, close, o.body);
        UnclosedGrows(t, more, close, o.body, i);
    }
  }
}
