/**
 * Which writes of one state file over another a reader in between can take for a third record, judged by the two
 * records alone.
 */
module TornRecords {
  import opened Basics
  import opened RecordFile
  import opened TornText
  import J = JsonObjects
  import CredentialStore

  type Digest = Members -> string

  /** JSON objects of texts, keys in order, with any digest. */
  ghost function Json(digest: Digest): Codec {
    Codec(m => J.Encode(m), b => J.ParseObject(b), digest, b => AllBlank(b))
  }

  predicate AllBlank(b: Bytes) {
    forall i :: 0 <= i < |b| ==> b[i] in " \t\r\n"
  }

  ghost predicate Injective(digest: Digest) {
    forall m, n :: digest(m) == digest(n) ==> m == n
  }

  lemma JsonIsSound(digest: Digest)
    requires Injective(digest)
    ensures Sound(Json(digest))
  {
    hide J.Encode, J.Read;
    var c := Json(digest);
    forall m: Members ensures c.decode(c.encode(m)) == Some(m) {
      J.EncodeReadsBack(m);
    }
    forall b: Bytes, more: Bytes | c.decode(b).Some? ensures c.decode(b + more) == c.decode(b) {
      J.ObjectIgnoresMore(b, more);
    }
    forall b: Bytes | c.decode(b).Some? ensures !c.blank(b) {
      assert b[0] == '{';
    }
  }

  // ---------------------------------------------------------------- a record as its texts

  /** The length of a SHA-256 sum in hexadecimal digits. */
  const DIGEST_SIZE := 64

  /** Keys, values and digest are written as they are, and none of them can pass for what stands between texts. */
  predicate Writable(digest: Digest, m: Members) {
    && CHECKSUM !in m && Plain(digest(m)) && DIGEST_SIZE <= |digest(m)|
    && forall k :: k in m ==> Plain(k) && Plain(m[k])
  }

  ghost function Ahead(m: Members): Members {
    J.Below(m, CHECKSUM)
  }

  ghost function Behind(m: Members): Members {
    J.Above(m, CHECKSUM)
  }

  ghost function Framed(digest: Digest, m: Members): J.Texts {
    J.Sorted(m[CHECKSUM := digest(m)])
  }

  /** Which of the texts is the key of the checksum. */
  ghost function Place(m: Members): nat {
    |J.Sorted(Ahead(m))|
  }

  /** How far into the object that key starts: every text ahead of it, and three units after each. */
  ghost function Offset(m: Members): nat {
    Start(J.Sorted(Ahead(m)), Place(m))
  }

  lemma FramedIs(digest: Digest, m: Members)
    requires CHECKSUM !in m
    ensures Framed(digest, m) == J.Sorted(Ahead(m)) + [CHECKSUM, digest(m)] + J.Sorted(Behind(m))
  {
    hide J.Sorted, J.AtMost;
    var framed := m[CHECKSUM := digest(m)];
    J.SortedSplits(framed, CHECKSUM);
    assert J.Below(framed, CHECKSUM) == Ahead(m);
    assert J.Above(framed, CHECKSUM) == Behind(m);
  }

  lemma {:induction false} SortedPlain(m: Members)
    requires forall k :: k in m ==> Plain(k) && Plain(m[k])
    ensures AllPlain(J.Sorted(m))
    decreases |m|
  {
    hide Plain;
    if m != map[] {
      var k := J.LeastKey(m);
      J.LeastIsThere(m, k);
      SortedPlain(m - {k});
    }
  }

  lemma ChecksumIsPlain()
    ensures Plain(CHECKSUM) && |CHECKSUM| == 8
  {
  }

  /** The texts are plain, the last one is a value, and the checksum's key stands where it is said to, nowhere else. */
  lemma FramedFacts(digest: Digest, m: Members)
    requires Writable(digest, m)
    ensures J.Closed(Framed(digest, m), true) && AllPlain(Framed(digest, m))
    ensures OnlyKeyAt(Framed(digest, m), Place(m))
    ensures Start(Framed(digest, m), Place(m)) == Offset(m)
  {
    hide J.Sorted, J.AtMost, J.Object, Plain;
    var a, b := J.Sorted(Ahead(m)), J.Sorted(Behind(m));
    var mid := [CHECKSUM, digest(m)];
    FramedIs(digest, m);
    ChecksumIsPlain();
    SortedPlain(Ahead(m));
    SortedPlain(Behind(m));
    J.SortedMakes(Ahead(m));
    J.SortedMakes(Behind(m));
    J.KeyIn(a, CHECKSUM);
    J.KeyIn(b, CHECKSUM);
    KeyInMiddle(a, digest(m), b);
    StartOfPrefix(a, mid + b);
    assert a + mid + b == a + (mid + b);
  }

  /** This text is the key of the checksum, and no other key is. */
  ghost predicate OnlyKeyAt(texts: J.Texts, n: nat) {
    && J.IsKeyAt(texts, n, CHECKSUM)
    && forall i :: J.IsKeyAt(texts, i, CHECKSUM) ==> i == n
  }

  lemma KeyInMiddle(a: J.Texts, d: string, b: J.Texts)
    requires |a| % 2 == 0 && |b| % 2 == 0
    requires !(exists i :: J.IsKeyAt(a, i, CHECKSUM)) && !(exists i :: J.IsKeyAt(b, i, CHECKSUM))
    ensures OnlyKeyAt(a + [CHECKSUM, d] + b, |a|)
  {
    var t := a + [CHECKSUM, d] + b;
    forall i | J.IsKeyAt(t, i, CHECKSUM) ensures i == |a| {
      assert i < |a| ==> J.IsKeyAt(a, i, CHECKSUM);
      assert i >= |a| + 2 ==> J.IsKeyAt(b, i - |a| - 2, CHECKSUM);
    }
  }

  lemma {:induction false} StartOfPrefix(a: J.Texts, b: J.Texts)
    ensures Start(a + b, |a|) == Start(a, |a|)
  {
    if a != [] {
      StartOfPrefix(a[1..], b);
      assert (a + b)[1..] == a[1..] + b;
    }
  }

  lemma {:induction false} StartsInOrder(texts: J.Texts, i: nat, j: nat)
    requires i < j <= |texts|
    ensures Start(texts, i) + |texts[i]| + 3 <= Start(texts, j)
  {
    if i > 0 {
      StartsInOrder(texts[1..], i - 1, j - 1);
    } else {
      assert Start(texts, j) == |texts[0]| + 3 + Start(texts[1..], j - 1);
    }
  }

  // ---------------------------------------------------------------- the states of a write

  /** The file when `k` bytes of the new record have gone over the old one. */
  ghost function During(digest: Digest, before: Members, later: Members, k: nat): Bytes
    requires k <= |Frame(Json(digest), later)|
  {
    Overlay(Frame(Json(digest), before), Frame(Json(digest), later), k)
  }

  /** That state carries no checksum, so whatever it says is taken for an older record. */
  ghost predicate LosesChecksum(digest: Digest, before: Members, later: Members, k: nat) {
    k <= |Frame(Json(digest), later)| && Unchecked(Json(digest), During(digest, before, later, k))
  }

  /** That state reads as a record that is neither of the two. */
  ghost predicate Misread(digest: Digest, before: Members, later: Members, k: nat) {
    k <= |Frame(Json(digest), later)| && Mistaken(Json(digest), During(digest, before, later, k), before, later)
  }

  lemma FrameIs(digest: Digest, m: Members)
    requires CHECKSUM !in m
    ensures Framed(digest, m) != []
    ensures Frame(Json(digest), m) == "{\"" + J.Written(Framed(digest, m), true)
  {
    hide J.Sorted, J.Written;
    FramedIs(digest, m);
  }

  lemma DuringIs(digest: Digest, before: Members, later: Members, k: nat)
    requires CHECKSUM !in before && CHECKSUM !in later
    ensures Framed(digest, before) != [] && Framed(digest, later) != []
    ensures |Frame(Json(digest), later)| == 2 + |J.Written(Framed(digest, later), true)|
    ensures k <= |J.Written(Framed(digest, later), true)| ==>
              During(digest, before, later, k + 2)
              == "{\"" + State(Framed(digest, later), true, k, Framed(digest, before), true, k)
    ensures k < 2 ==> During(digest, before, later, k) == Frame(Json(digest), before)
  {
    hide J.Written, Framed, Frame, Json, Overlay;
    FrameIs(digest, before);
    FrameIs(digest, later);
    var x, y := J.Written(Framed(digest, before), true), J.Written(Framed(digest, later), true);
    assert |"{\"" + y| == 2 + |y|;
    if k <= |y| {
      BodyOverlay(x, y, k);
    }
    if k < 2 {
      BraceOverlay(x, y, k);
    }
  }

  lemma BodyOverlay(x: string, y: string, k: nat)
    requires k <= |y|
    ensures |"{\"" + y| == 2 + |y|
    ensures Overlay("{\"" + x, "{\"" + y, k + 2) == "{\"" + (y[..k] + From(x, k))
  {
    assert ("{\"" + y)[..k + 2] == "{\"" + y[..k];
    if k <= |x| {
      assert ("{\"" + x)[k + 2..] == x[k..];
    }
  }

  lemma BraceOverlay(x: string, y: string, k: nat)
    requires k < 2
    ensures |"{\"" + y| == 2 + |y|
    ensures Overlay("{\"" + x, "{\"" + y, k) == "{\"" + x
  {
    var b := "{\"" + x;
    assert ("{\"" + y)[..k] == b[..k];
    assert b[..k] + b[k..] == b;
  }

  lemma JsonDecodes(digest: Digest, b: Bytes)
    ensures Json(digest).decode(b) == J.ParseObject(b)
  {
  }

  lemma ParseBody(s: string)
    ensures J.ParseObject("{\"" + s)
         == if J.Read(s, true).None? then None else Some(J.Object(J.Read(s, true).value))
  {
    hide J.Read;
    assert ("{\"" + s)[1] == '"' && ("{\"" + s)[2..] == s;
  }

  function Mixed(l: J.Texts, b: J.Texts, at: Joint): string
    requires Fits(l, b, at)
  {
    l[at.i][..at.a] + b[at.j][at.b..]
  }

  /**
   * A place the same distance into both records, in a key of both or in a value of both, not after the key of
   * the checksum in the new record and not before it in the old one, where the two do not make up that key.
   */
  ghost predicate Slips(digest: Digest, before: Members, later: Members, at: Joint) {
    var b, l := Framed(digest, before), Framed(digest, later);
    && Fits(l, b, at) && Reached(l, at) == Left(b, at)
    && at.i <= Place(later) && Place(before) <= at.j
    && (at.i % 2 == 0 ==> Mixed(l, b, at) != CHECKSUM)
  }

  lemma JoinAt(l: J.Texts, b: J.Texts, at: Joint)
    requires |l| % 2 == 0 && |b| % 2 == 0 && Fits(l, b, at)
    ensures var t := Join(l, b, at);
      && |t| % 2 == 0 && at.i % 2 == at.j % 2 && |t| - at.i == |b| - at.j && at.i < |l| && at.j < |b|
      && (forall i :: 0 <= i < |t| ==>
            t[i] == if i < at.i then l[i] else if i == at.i then Mixed(l, b, at) else b[at.j + (i - at.i)])
  {
  }

  /** Joined texts have the key of the checksum unless the joint leaves out both of them. */
  lemma JoinLacksChecksum(l: J.Texts, n: nat, b: J.Texts, o: nat, at: Joint)
    requires |l| % 2 == 0 && |b| % 2 == 0 && OnlyKeyAt(l, n) && OnlyKeyAt(b, o) && Fits(l, b, at)
    ensures |Join(l, b, at)| % 2 == 0
    ensures CHECKSUM !in J.Object(Join(l, b, at))
        <==> at.i <= n && o <= at.j && (at.i % 2 == 0 ==> Mixed(l, b, at) != CHECKSUM)
  {
    hide J.Object, Join, Mixed, Fits;
    JoinAt(l, b, at);
    var t := Join(l, b, at);
    J.KeyIn(t, CHECKSUM);
    if n < at.i {
      assert J.IsKeyAt(t, n, CHECKSUM);
    }
    if at.j < o {
      assert J.IsKeyAt(t, at.i + (o - at.j), CHECKSUM);
    }
    if at.i % 2 == 0 && Mixed(l, b, at) == CHECKSUM {
      assert J.IsKeyAt(t, at.i, CHECKSUM);
    }
    forall i | J.IsKeyAt(t, i, CHECKSUM)
      ensures n < at.i || at.j < o || (at.i % 2 == 0 && Mixed(l, b, at) == CHECKSUM)
    {
      KeyOfJoin(l, b, at, i);
    }
  }

  /** A key of the joined texts is one of the new texts, one of the old ones, or the one they make up. */
  lemma KeyOfJoin(l: J.Texts, b: J.Texts, at: Joint, i: int)
    requires |l| % 2 == 0 && |b| % 2 == 0 && Fits(l, b, at) && J.IsKeyAt(Join(l, b, at), i, CHECKSUM)
    ensures i < at.i ==> J.IsKeyAt(l, i, CHECKSUM)
    ensures i > at.i ==> J.IsKeyAt(b, at.j + (i - at.i), CHECKSUM)
    ensures i == at.i ==> at.i % 2 == 0 && Mixed(l, b, at) == CHECKSUM
  {
    hide Join, Mixed, Fits;
    JoinAt(l, b, at);
    EvenStep(at.i, at.j, i);
  }

  lemma EvenStep(i: int, j: int, k: int)
    requires i % 2 == j % 2 && k % 2 == 0
    ensures (j + (k - i)) % 2 == 0
  {
  }

  /** Two units on from a joint at the same distance into both, the file says what the joined texts say. */
  lemma JointIsRead(digest: Digest, before: Members, later: Members, at: Joint)
    requires Writable(digest, before) && Writable(digest, later)
    requires Fits(Framed(digest, later), Framed(digest, before), at)
    requires Reached(Framed(digest, later), at) == Left(Framed(digest, before), at)
    ensures Reached(Framed(digest, later), at) + 2 <= |Frame(Json(digest), later)|
    ensures var t := Join(Framed(digest, later), Framed(digest, before), at);
      && |t| % 2 == 0
      && J.ParseObject(During(digest, before, later, Reached(Framed(digest, later), at) + 2)) == Some(J.Object(t))
  {
    hide J.Object, J.ParseObject, J.Read, J.Written, Framed, Frame, During, Json, State, Join, Start;
    var l, b := Framed(digest, later), Framed(digest, before);
    var k := Reached(l, at);
    FramedFacts(digest, before);
    FramedFacts(digest, later);
    DuringIs(digest, before, later, k);
    JointReads(l, true, b, true, at);
    ParseBody(State(l, true, k, b, true, k));
  }

  /** Before the first two bytes, which no two records differ in, and after the last one the checksum is there. */
  lemma CheckedAtEnds(digest: Digest, before: Members, later: Members, k: nat)
    requires CHECKSUM !in before && CHECKSUM !in later && k <= |Frame(Json(digest), later)|
    ensures k < 2 || k == |Frame(Json(digest), later)| ==> !Unchecked(Json(digest), During(digest, before, later, k))
  {
    hide J.ParseObject, J.Encode, Overlay;
    var x, y := Frame(Json(digest), before), Frame(Json(digest), later);
    J.EncodeReadsBack(before[CHECKSUM := digest(before)]);
    J.EncodeReadsBack(later[CHECKSUM := digest(later)]);
    if k < 2 {
      DuringStart(digest, before, later, k);
    } else if k == |y| {
      var rest := if k <= |x| then x[k..] else "";
      assert Overlay(x, y, k) == y + rest by { OverlayEnd(x, y); }
      J.ObjectIgnoresMore(y, rest);
    }
  }

  lemma OverlayEnd(x: Bytes, y: Bytes)
    ensures Overlay(x, y, |y|) == y + if |y| <= |x| then x[|y|..] else ""
  {
    assert y[..|y|] == y;
  }

  lemma DuringStart(digest: Digest, before: Members, later: Members, k: nat)
    requires CHECKSUM !in before && CHECKSUM !in later && k < 2
    ensures k <= |Frame(Json(digest), later)| && During(digest, before, later, k) == Frame(Json(digest), before)
  {
    hide J.Written, Framed, Frame, Json, During;
    DuringIs(digest, before, later, k);
  }

  /** A state without a checksum is explained by a place where the two records slip past each other. */
  lemma UncheckedSlips(digest: Digest, before: Members, later: Members, k: nat) returns (at: Joint)
    requires Writable(digest, before) && Writable(digest, later) && k <= |Frame(Json(digest), later)|
    requires Unchecked(Json(digest), During(digest, before, later, k))
    ensures Slips(digest, before, later, at)
    ensures |Join(Framed(digest, later), Framed(digest, before), at)| % 2 == 0
    ensures J.ParseObject(During(digest, before, later, k))
         == Some(J.Object(Join(Framed(digest, later), Framed(digest, before), at)))
  {
    hide J.Object, J.ParseObject, J.Read, J.Written, Framed, Frame, During, Json, State, Join, Start, Place;
    var l, b := Framed(digest, later), Framed(digest, before);
    FramedFacts(digest, before);
    FramedFacts(digest, later);
    CheckedAtEnds(digest, before, later, k);
    JsonDecodes(digest, During(digest, before, later, k));
    DuringIs(digest, before, later, k - 2);
    ParseBody(State(l, true, k - 2, b, true, k - 2));
    at := StateReads(l, true, k - 2, b, true, k - 2);
    JoinLacksChecksum(l, Place(later), b, Place(before), at);
  }

  /**
   * Some state of a write loses its checksum if and only if the two records slip past each other somewhere, which
   * is a matter of the lengths of their texts alone, but for a key that the two happen to make up.
   */
  lemma ChecksumIsLostExactlyWhen(digest: Digest, before: Members, later: Members)
    requires Writable(digest, before) && Writable(digest, later)
    ensures (exists k: nat :: LosesChecksum(digest, before, later, k))
        <==> exists at :: Slips(digest, before, later, at)
  {
    hide During, Unchecked, Frame, Json, Slips;
    if k: nat :| LosesChecksum(digest, before, later, k) {
      var at := UncheckedSlips(digest, before, later, k);
    }
    if at :| Slips(digest, before, later, at) {
      SlipIsRead(digest, before, later, at);
      assert LosesChecksum(digest, before, later, Reached(Framed(digest, later), at) + 2);
    }
  }

  /** Where two records slip past each other, a reader takes the joined texts for a record. */
  lemma SlipIsRead(digest: Digest, before: Members, later: Members, at: Joint)
    requires Writable(digest, before) && Writable(digest, later) && Slips(digest, before, later, at)
    ensures var l, b := Framed(digest, later), Framed(digest, before);
      && Fits(l, b, at) && |Join(l, b, at)| % 2 == 0 && Reached(l, at) + 2 <= |Frame(Json(digest), later)|
      && Unchecked(Json(digest), During(digest, before, later, Reached(l, at) + 2))
      && Unframe(Json(digest), During(digest, before, later, Reached(l, at) + 2))
         == Record(J.Object(Join(l, b, at)))
  {
    hide J.Object, J.ParseObject, During, Frame, Framed, Join, Place, Fits, Reached, Left;
    FramedFacts(digest, before);
    FramedFacts(digest, later);
    JointIsRead(digest, before, later, at);
    JoinLacksChecksum(Framed(digest, later), Place(later), Framed(digest, before), Place(before), at);
  }

  // ---------------------------------------------------------------- judged by the records alone

  /** What the two records make where they slip past each other is neither of them. */
  ghost predicate SlipsIntoThird(digest: Digest, before: Members, later: Members, at: Joint) {
    && Slips(digest, before, later, at)
    && var t := Join(Framed(digest, later), Framed(digest, before), at);
       |t| % 2 == 0 && J.Object(t) !in {before, later}
  }

  ghost predicate ForgedDuring(digest: Digest, before: Members, later: Members, k: nat) {
    k <= |Frame(Json(digest), later)| && Forged(Json(digest), During(digest, before, later, k), before, later)
  }

  /**
   * A reader can take some state of a write for a third record if and only if the two records slip into one, or
   * some state carries the checksum of neither and that checksum is right.
   */
  lemma MisreadExactlyWhen(digest: Digest, before: Members, later: Members)
    requires Injective(digest) && Writable(digest, before) && Writable(digest, later)
    ensures (exists k: nat :: Misread(digest, before, later, k))
        <==> (exists at :: SlipsIntoThird(digest, before, later, at))
             || (exists k: nat :: ForgedDuring(digest, before, later, k))
  {
    hide During, Frame, Framed, Slips, Unframe, J.Object, J.ParseObject, Join, Sound, Injective;
    var c := Json(digest);
    JsonIsSound(digest);
    if k: nat :| Misread(digest, before, later, k) {
      MistakenExactlyWhen(c, During(digest, before, later, k), before, later);
      if Unchecked(c, During(digest, before, later, k)) {
        var at := UncheckedSlips(digest, before, later, k);
        JsonDecodes(digest, During(digest, before, later, k));
        assert SlipsIntoThird(digest, before, later, at);
      } else {
        assert ForgedDuring(digest, before, later, k);
      }
    }
    if k: nat :| ForgedDuring(digest, before, later, k) {
      MistakenExactlyWhen(c, During(digest, before, later, k), before, later);
      assert Misread(digest, before, later, k);
    }
    if at :| SlipsIntoThird(digest, before, later, at) {
      SlipIsRead(digest, before, later, at);
      var k := Reached(Framed(digest, later), at) + 2;
      assert Misread(digest, before, later, k);
    }
  }

  // ---------------------------------------------------------------- keys of the checksum that move

  lemma KeyText(digest: Digest, m: Members)
    requires Writable(digest, m)
    ensures Place(m) + 1 < |Framed(digest, m)| && Place(m) % 2 == 0 && |Framed(digest, m)| % 2 == 0
    ensures Framed(digest, m)[Place(m)] == CHECKSUM && Framed(digest, m)[Place(m) + 1] == digest(m)
    ensures Framed(digest, m)[..Place(m)] == J.Sorted(Ahead(m))
    ensures Framed(digest, m)[Place(m) + 1..] == [digest(m)] + J.Sorted(Behind(m))
  {
    hide J.Sorted, Plain, J.AtMost;
    FramedIs(digest, m);
  }

  /** Where a text starts and ends, measured from the key of the checksum. */
  lemma TextsAroundKey(digest: Digest, m: Members, i: nat)
    requires Writable(digest, m) && i < |Framed(digest, m)|
    ensures Place(m) + 1 < |Framed(digest, m)|
    ensures var t := Framed(digest, m);
      && (i < Place(m) ==> Start(t, i) + |t[i]| + 3 <= Offset(m))
      && (i == Place(m) ==> Start(t, i) == Offset(m) && t[i] == CHECKSUM)
      && (i == Place(m) + 1 ==> Offset(m) + 11 <= Start(t, i))
      && (i > Place(m) + 1 ==> Offset(m) + 14 + DIGEST_SIZE <= Start(t, i))
  {
    hide Framed, Offset, Plain, Start, Place;
    ChecksumIsPlain();
    FramedFacts(digest, m);
    KeyText(digest, m);
    var t, n := Framed(digest, m), Place(m);
    if i < n {
      StartsInOrder(t, i, n);
    } else if i > n {
      StartsInOrder(t, n, n + 1);
      if i > n + 1 {
        StartsInOrder(t, n + 1, i);
      }
    }
  }

  function Forward(before: nat, later: nat): nat {
    if before < later then later - before else 0
  }

  /** What is left of the checksum's key where its old place and its new one overlap. */
  function Remains(before: nat, later: nat): string
    requires Forward(before, later) <= |CHECKSUM| && Forward(later, before) <= |CHECKSUM|
  {
    CHECKSUM[..Forward(later, before)] + CHECKSUM[Forward(before, later)..]
  }

  /** The key has moved, and by no more than its own length. */
  ghost predicate KeyMoves(before: Members, later: Members) {
    && Offset(before) != Offset(later)
    && Forward(Offset(before), Offset(later)) <= |CHECKSUM| && Forward(Offset(later), Offset(before)) <= |CHECKSUM|
  }

  lemma KeysSlip(digest: Digest, before: Members, later: Members) returns (at: Joint)
    requires Writable(digest, before) && Writable(digest, later) && KeyMoves(before, later)
    ensures Slips(digest, before, later, at) && at.i == Place(later) && at.j == Place(before)
    ensures Mixed(Framed(digest, later), Framed(digest, before), at) == Remains(Offset(before), Offset(later))
  {
    hide Framed, Offset, Plain, Start, Place, Join, J.Sorted;
    ChecksumIsPlain();
    KeyText(digest, before);
    KeyText(digest, later);
    at := Joint(Place(later), Forward(Offset(later), Offset(before)),
                Place(before), Forward(Offset(before), Offset(later)));
    TextsAroundKey(digest, later, at.i);
    TextsAroundKey(digest, before, at.j);
    RemainsLess(Offset(before), Offset(later));
    EvenPlaces(|Framed(digest, later)|, at.i, |Framed(digest, before)|, at.j);
    assert Fits(Framed(digest, later), Framed(digest, before), at);
    assert Reached(Framed(digest, later), at) == Left(Framed(digest, before), at);
    hide Fits, Reached, Left;
  }

  lemma EvenPlaces(m: nat, i: nat, n: nat, j: nat)
    requires i < m && j < n && m % 2 == 0 && i % 2 == 0 && n % 2 == 0 && j % 2 == 0
    ensures (m - i) % 2 == (n - j) % 2
  {
  }

  lemma RemainsLess(before: nat, later: nat)
    requires before != later && Forward(before, later) <= |CHECKSUM| && Forward(later, before) <= |CHECKSUM|
    ensures Remains(before, later) != CHECKSUM
  {
    ChecksumIsPlain();
    assert |Remains(before, later)| != |CHECKSUM|;
  }

  /** Two records slip past each other only if the checksum's key has moved. */
  lemma SlipMoves(digest: Digest, before: Members, later: Members, at: Joint)
    requires Writable(digest, before) && Writable(digest, later) && Offset(later) <= Offset(before) + |CHECKSUM|
    requires Slips(digest, before, later, at)
    ensures KeyMoves(before, later)
  {
    hide Framed, Offset, Plain, Start, Place, Join, J.Sorted;
    ChecksumIsPlain();
    KeyText(digest, before);
    KeyText(digest, later);
    TextsAroundKey(digest, later, at.i);
    TextsAroundKey(digest, before, at.j);
    if at.i == Place(later) && at.j == Place(before) {
      SameCutIsKey(at.a, at.b);
    }
  }

  lemma SameCutIsKey(a: nat, b: nat)
    requires a <= |CHECKSUM| && b <= |CHECKSUM| && CHECKSUM[..a] + CHECKSUM[b..] != CHECKSUM
    ensures a != b
  {
  }

  /**
   * As long as the text ahead of the checksum's key grows by no more than the length of that key, some state of the
   * write loses its checksum if and only if that text grows or shrinks by one to eight units.
   */
  lemma LostExactlyWhenKeyMoves(digest: Digest, before: Members, later: Members)
    requires Writable(digest, before) && Writable(digest, later) && Offset(later) <= Offset(before) + |CHECKSUM|
    ensures (exists k: nat :: LosesChecksum(digest, before, later, k))
        <==> KeyMoves(before, later)
  {
    hide During, Unchecked, Frame, Json, Slips, Offset, Place;
    ChecksumIsLostExactlyWhen(digest, before, later);
    if at :| Slips(digest, before, later, at) {
      SlipMoves(digest, before, later, at);
    }
    if KeyMoves(before, later) {
      var at := KeysSlip(digest, before, later);
    }
  }

  /** While that text keeps its length, a reader gets one of the two records, an error, or a forged checksum. */
  lemma SteadyKeyIsSafe(digest: Digest, before: Members, later: Members, k: nat)
    requires Injective(digest) && Writable(digest, before) && Writable(digest, later)
    requires Offset(before) == Offset(later) && k <= |Frame(Json(digest), later)|
    ensures var bytes := During(digest, before, later, k);
      && !Unchecked(Json(digest), bytes)
      && (Mistaken(Json(digest), bytes, before, later) <==> Forged(Json(digest), bytes, before, later))
  {
    hide During, Unchecked, Forged, Frame, Json, Offset, Place, Mistaken, Sound, Injective;
    LostExactlyWhenKeyMoves(digest, before, later);
    assert !LosesChecksum(digest, before, later, k);
    JsonIsSound(digest);
    MistakenExactlyWhen(Json(digest), During(digest, before, later, k), before, later);
  }

  /**
   * If it grows or shrinks by one to eight units, some state reads as a third record: what stands ahead of the
   * checksum in the new record, what stands behind it in the old one, and between them what is left of the key.
   */
  lemma MovedKeyReadsAThird(digest: Digest, before: Members, later: Members) returns (k: nat)
    requires Writable(digest, before) && Writable(digest, later) && KeyMoves(before, later)
    ensures k <= |Frame(Json(digest), later)|
    ensures Unframe(Json(digest), During(digest, before, later, k))
         == Record(Ahead(later) + map[Remains(Offset(before), Offset(later)) := digest(before)] + Behind(before))
  {
    hide During, Unchecked, Frame, Json, Offset, Place, Framed, Slips, J.Object, Remains;
    var at := KeysSlip(digest, before, later);
    SlipIsRead(digest, before, later, at);
    k := Reached(Framed(digest, later), at) + 2;
    KeyText(digest, before);
    KeyText(digest, later);
    var a, b := J.Sorted(Ahead(later)), J.Sorted(Behind(before));
    var rest := Remains(Offset(before), Offset(later));
    JoinOfParts(Framed(digest, later), Framed(digest, before), at, a, digest(before), b);
    J.SortedMakes(Ahead(later));
    J.SortedMakes(Behind(before));
    OneMember(rest, digest(before), b);
    J.ObjectJoins(a, [rest, digest(before)] + b);
    J.Merge(Ahead(later), map[rest := digest(before)], Behind(before));
  }

  lemma JoinOfParts(l: J.Texts, b: J.Texts, at: Joint, head: J.Texts, v: string, tail: J.Texts)
    requires Fits(l, b, at) && l[..at.i] == head && b[at.j + 1..] == [v] + tail
    ensures Join(l, b, at) == head + ([Mixed(l, b, at), v] + tail)
  {
  }

  lemma OneMember(k: string, v: string, rest: J.Texts)
    requires |rest| % 2 == 0
    ensures |[k, v] + rest| % 2 == 0 && J.Object([k, v] + rest) == map[k := v] + J.Object(rest)
  {
    assert ([k, v] + rest)[2..] == rest;
  }

  /**
   * What a tear of one record over another leaves can load as a third login under exactly that condition.
   */
  lemma TornLoginExactlyWhen(digest: Digest, before: Members, later: Members)
    requires Injective(digest) && Writable(digest, before) && Writable(digest, later)
    ensures (exists k: nat :: LoadsAnother(digest, before, later, k))
        <==> (exists at :: SlipsIntoThird(digest, before, later, at))
             || (exists k: nat :: ForgedDuring(digest, before, later, k))
  {
    hide Frame, Slips, Sound, Injective, SlipsIntoThird, ForgedDuring, Mistaken, Mistakable, Overlay, Json,
      CredentialStore.EntryOf;
    JsonIsSound(digest);
    MisreadExactlyWhen(digest, before, later);
    forall k: nat | k <= |Frame(Json(digest), later)|
      ensures LoadsAnother(digest, before, later, k)
          <==> Misread(digest, before, later, k)
    {
      CredentialStore.TornLoadsAnotherExactlyWhen(Json(digest), Frame(Json(digest), before), before, later, k);
      MistakenExactlyWhen(Json(digest), During(digest, before, later, k), before, later);
    }
  }

  /** Left off after `k` bytes, the file loads as a login that is neither the old one nor the new one. */
  ghost predicate LoadsAnother(digest: Digest, before: Members, later: Members, k: nat) {
    && k <= |Frame(Json(digest), later)|
    && var left := CredentialStore.EntryOf(Json(digest), During(digest, before, later, k));
       left.Holds? && left.creds != before && left.creds != later
  }
}
