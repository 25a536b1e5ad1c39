/** State files: objects with a checksum, rewritten in place while others may be reading. */
module RecordFile {
  import opened Basics

  type Bytes = string

  type Members = map<string, string>

  const CHECKSUM := "checksum"

  const ATTEMPTS := 5

  /** How objects become bytes and back; decoding reads the first object and ignores what follows it. */
  datatype Codec = Codec(
    encode: Members -> Bytes, decode: Bytes -> Option<Members>, digest: Members -> string, blank: Bytes -> bool)

  ghost predicate Sound(c: Codec) {
    && (forall m :: c.decode(c.encode(m)) == Some(m))
    && (forall b: Bytes, more: Bytes :: c.decode(b).Some? ==> c.decode(b + more) == c.decode(b))
    && (forall m, n :: c.digest(m) == c.digest(n) ==> m == n)
    && (forall b: Bytes :: c.decode(b).Some? ==> !c.blank(b))
  }

  datatype Read = Record(members: Members) | NotFound | Unparsable | BadChecksum | Unreadable

  /** What one attempt at reading the file finds. */
  datatype Find = Missing | Failing | Content(bytes: Bytes)

  function Frame(c: Codec, m: Members): Bytes {
    c.encode(m[CHECKSUM := c.digest(m)])
  }

  function Unframe(c: Codec, data: Bytes): Read {
    match c.decode(data)
    case None => Unparsable
    case Some(members) =>
      if CHECKSUM !in members then Record(members)
      else
        var rest := members - {CHECKSUM};
        if members[CHECKSUM] == c.digest(rest) then Record(rest) else BadChecksum
  }

  /** What is read, and why not: no object, or a checksum that is not that of the other members. */
  lemma UnframedExactlyWhen(c: Codec, data: Bytes)
    ensures Unframe(c, data).Unparsable? <==> c.decode(data).None?
    ensures Unframe(c, data).BadChecksum? <==>
              && c.decode(data).Some? && CHECKSUM in c.decode(data).value
              && c.decode(data).value[CHECKSUM] != c.digest(c.decode(data).value - {CHECKSUM})
    ensures Unframe(c, data).Record? ==> Unframe(c, data).members == c.decode(data).value - {CHECKSUM}
    ensures !Unframe(c, data).NotFound? && !Unframe(c, data).Unreadable?
  {
    if c.decode(data).Some? && CHECKSUM !in c.decode(data).value {
      assert c.decode(data).value - {CHECKSUM} == c.decode(data).value;
    }
  }

  /** The file after `k` bytes of `data` have gone over `before`. */
  function Overlay(before: Bytes, data: Bytes, k: nat): Bytes
    requires k <= |data|
  {
    data[..k] + if k <= |before| then before[k..] else []
  }

  class File {
    var bytes: Bytes

    constructor (bytes: Bytes)
      ensures this.bytes == bytes
    {
      this.bytes := bytes;
    }

    /** Puts one byte at `k`, at most one past the end. */
    method Put(b: char, k: nat)
      requires k <= |bytes|
      modifies this
      ensures bytes == old(bytes)[..k] + [b] + if k < |old(bytes)| then old(bytes)[k + 1..] else []
    {
      bytes := bytes[..k] + [b] + if k < |bytes| then bytes[k + 1..] else [];
    }

    /** Writes first and shortens after; `seen` are the states a reader can meet on the way. */
    method WriteInPlace(data: Bytes) returns (ghost seen: seq<Bytes>)
      modifies this
      ensures bytes == data
      ensures |seen| == |data| + 1
      ensures forall k :: 0 <= k <= |data| ==> seen[k] == Overlay(old(bytes), data, k)
    {
      ghost var before := bytes;
      seen := [bytes];
      assert before == Overlay(before, data, 0);
      for k := 0 to |data|
        invariant bytes == Overlay(before, data, k)
        invariant |seen| == k + 1
        invariant forall j :: 0 <= j <= k ==> seen[j] == Overlay(before, data, j)
      {
        Put(data[k], k);
        OverlayStep(before, data, k);
        seen := seen + [bytes];
      }
      assert bytes[..|data|] == data;
      bytes := bytes[..|data|];
    }
  }

  lemma OverlayStep(before: Bytes, data: Bytes, k: nat)
    requires k < |data|
    ensures var mid := Overlay(before, data, k);
      && k <= |mid|
      && Overlay(before, data, k + 1) == mid[..k] + [data[k]] + if k < |mid| then mid[k + 1..] else []
  {
    var mid := Overlay(before, data, k);
    assert mid[..k] == data[..k];
    assert data[..k + 1] == data[..k] + [data[k]];
    if k < |before| {
      assert mid[k + 1..] == before[k + 1..];
    }
  }

  /** A framed record reads back, also with anything behind it. */
  lemma FramedReadsBack(c: Codec, m: Members, tail: Bytes)
    requires Sound(c) && CHECKSUM !in m
    ensures Unframe(c, Frame(c, m) + tail) == Record(m)
  {
    var framed := m[CHECKSUM := c.digest(m)];
    assert c.decode(c.encode(framed)) == Some(framed);
    assert c.decode(Frame(c, m) + tail) == Some(framed);
    assert framed - {CHECKSUM} == m;
  }

  /** Once all bytes are written, before the file is shortened, readers get the new record. */
  lemma WrittenIsNew(c: Codec, before: Bytes, m: Members)
    requires Sound(c) && CHECKSUM !in m
    ensures Unframe(c, Overlay(before, Frame(c, m), |Frame(c, m)|)) == Record(m)
  {
    var data := Frame(c, m);
    FramedReadsBack(c, m, if |data| <= |before| then before[|data|..] else []);
    assert data[..|data|] == data;
  }

  /** Until the first byte that differs goes in, readers still get the old record. */
  lemma UnchangedIsOld(c: Codec, oldRecord: Members, data: Bytes, k: nat)
    requires Sound(c) && CHECKSUM !in oldRecord
    requires k <= |data| && k <= |Frame(c, oldRecord)| && data[..k] == Frame(c, oldRecord)[..k]
    ensures Unframe(c, Overlay(Frame(c, oldRecord), data, k)) == Record(oldRecord)
  {
    var before := Frame(c, oldRecord);
    FramedReadsBack(c, oldRecord, []);
    assert before + [] == before == Overlay(before, data, k);
  }

  /** The bytes carry a checksum, and it is the one of `m`. */
  predicate Carries(c: Codec, bytes: Bytes, m: Members) {
    && c.decode(bytes).Some?
    && CHECKSUM in c.decode(bytes).value
    && c.decode(bytes).value[CHECKSUM] == c.digest(m)
  }

  /**
   * At every state of a write of one record over another: bytes that carry the whole checksum of one
   * of them read as that record or as an error; before anything differs the old record is read, and
   * from the last byte on, already before the file is shortened, the new one.
   */
  lemma ReadDuringWrite(c: Codec, oldRecord: Members, newRecord: Members, k: nat)
    requires Sound(c) && CHECKSUM !in oldRecord && CHECKSUM !in newRecord && k <= |Frame(c, newRecord)|
    ensures var before, data := Frame(c, oldRecord), Frame(c, newRecord);
      var bytes := Overlay(before, data, k);
      && (Carries(c, bytes, oldRecord) ==> Unframe(c, bytes) in {Record(oldRecord), BadChecksum})
      && (Carries(c, bytes, newRecord) ==> Unframe(c, bytes) in {Record(newRecord), BadChecksum})
      && (k <= |before| && before[..k] == data[..k] ==> Unframe(c, bytes) == Record(oldRecord))
      && (k == |data| ==> Unframe(c, bytes) == Record(newRecord))
  {
    var before, data := Frame(c, oldRecord), Frame(c, newRecord);
    if k == |data| {
      WrittenIsNew(c, before, newRecord);
    }
    if k <= |before| && before[..k] == data[..k] {
      UnchangedIsOld(c, oldRecord, data, k);
    }
  }

  /** The bytes parse and have no checksum, so whatever they say is taken for an older record. */
  predicate Unchecked(c: Codec, bytes: Bytes) {
    c.decode(bytes).Some? && CHECKSUM !in c.decode(bytes).value
  }

  /** The bytes carry a checksum that is neither record's and yet is right. */
  predicate Forged(c: Codec, bytes: Bytes, oldRecord: Members, newRecord: Members) {
    && c.decode(bytes).Some? && CHECKSUM in c.decode(bytes).value
    && !Carries(c, bytes, oldRecord) && !Carries(c, bytes, newRecord)
    && var members := c.decode(bytes).value;
       members[CHECKSUM] == c.digest(members - {CHECKSUM})
  }

  predicate Mistakable(c: Codec, bytes: Bytes, oldRecord: Members, newRecord: Members) {
    || (Unchecked(c, bytes) && c.decode(bytes).value !in {oldRecord, newRecord})
    || Forged(c, bytes, oldRecord, newRecord)
  }

  /** A reader of these bytes gets a record, and neither of the two. */
  predicate Mistaken(c: Codec, bytes: Bytes, oldRecord: Members, newRecord: Members) {
    var read := Unframe(c, bytes);
    read.Record? && read != Record(oldRecord) && read != Record(newRecord)
  }

  /**
   * Bytes that are neither of two records are trusted all the same exactly when they parse, and
   * either have lost their checksum or carry one that is neither record's and yet is right.
   */
  lemma MistakenExactlyWhen(c: Codec, bytes: Bytes, oldRecord: Members, newRecord: Members)
    requires Sound(c) && CHECKSUM !in oldRecord && CHECKSUM !in newRecord
    ensures Mistaken(c, bytes, oldRecord, newRecord) <==> Mistakable(c, bytes, oldRecord, newRecord)
  {
    var found := c.decode(bytes);
    if found.Some? && CHECKSUM in found.value {
      var rest := found.value - {CHECKSUM};
      assert found.value[CHECKSUM] == c.digest(rest) && rest != oldRecord && rest != newRecord ==>
          !Carries(c, bytes, oldRecord) && !Carries(c, bytes, newRecord);
    }
  }

  /** Some byte that differs has gone in, and the last byte has not. */
  predicate Underway(before: Bytes, data: Bytes, k: nat) {
    k < |data| && (k > |before| || before[..k] != data[..k])
  }

  /**
   * A read in the middle of a write of one record over another gives a third one if and only if the
   * bytes at that moment are mistakable; and that is never so before a byte that differs has gone in,
   * nor once the last one has.
   */
  lemma WriteIsMistakenExactlyWhen(c: Codec, oldRecord: Members, newRecord: Members, k: nat)
    requires Sound(c) && CHECKSUM !in oldRecord && CHECKSUM !in newRecord && k <= |Frame(c, newRecord)|
    ensures var before, data := Frame(c, oldRecord), Frame(c, newRecord);
      Mistaken(c, Overlay(before, data, k), oldRecord, newRecord)
      <==> Underway(before, data, k) && Mistakable(c, Overlay(before, data, k), oldRecord, newRecord)
  {
    var before, data := Frame(c, oldRecord), Frame(c, newRecord);
    MistakenExactlyWhen(c, Overlay(before, data, k), oldRecord, newRecord);
    ReadDuringWrite(c, oldRecord, newRecord, k);
  }

  /** A read that stops at this attempt: nothing there, a failing read, or a record that holds together. */
  predicate Stops(c: Codec, find: Find) {
    find.Content? ==> c.blank(find.bytes) || Unframe(c, find.bytes).Record?
  }

  function Answer(c: Codec, find: Find): Read {
    match find
    case Missing => NotFound
    case Failing => Unreadable
    case Content(bytes) => if c.blank(bytes) then NotFound else Unframe(c, bytes)
  }

  /**
   * The answer is the first attempt's that stops, and otherwise the error of the last one.  Attempts
   * that each meet the old record, the new one, or any state between them that is not mistakable,
   * end with one of the two records or an error.
   */
  method ReadRecord(c: Codec, finds: seq<Find>, ghost oldRecord: Members, ghost newRecord: Members) returns (r: Read)
    requires |finds| == ATTEMPTS
    ensures forall k :: 0 <= k < ATTEMPTS && Stops(c, finds[k]) && (forall j :: 0 <= j < k ==> !Stops(c, finds[j]))
              ==> r == Answer(c, finds[k])
    ensures (forall k :: 0 <= k < ATTEMPTS ==> !Stops(c, finds[k])) ==>
              r == Answer(c, finds[ATTEMPTS - 1]) && !r.Record? && !r.NotFound?
    ensures Sound(c) && CHECKSUM !in oldRecord && CHECKSUM !in newRecord
      && (forall k :: 0 <= k < ATTEMPTS && finds[k].Content? ==> !Mistakable(c, finds[k].bytes, oldRecord, newRecord))
      ==> r == Record(oldRecord) || r == Record(newRecord) || !r.Record?
  {
    r := Unparsable;
    for attempt := 0 to ATTEMPTS
      invariant forall j :: 0 <= j < attempt ==> !Stops(c, finds[j])
      invariant if attempt == 0 then r.Unparsable? else r == Answer(c, finds[attempt - 1])
    {
      match finds[attempt]
      case Missing => return NotFound;
      case Failing => return Unreadable;
      case Content(bytes) =>
        if c.blank(bytes) {
          return NotFound;
        }
        r := Unframe(c, bytes);
        if r.Record? {
          if Sound(c) && CHECKSUM !in oldRecord && CHECKSUM !in newRecord {
            MistakenExactlyWhen(c, bytes, oldRecord, newRecord);
          }
          return;
        }
    }
  }
}
