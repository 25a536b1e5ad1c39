/** Which device is uploading a card's picture, since when, and for how long others believe it. */
module UploadClaims {
  import opened Basics
  import opened Numerals
  import J = JsonObjects

  type Meta = map<string, string>

  datatype Data = Data(fileId: Option<string>, mediaId: Option<string>, meta: Meta)

  const DEVICE := "uploadDevice"
  const STARTED := "uploadStartedAt"
  const RELEASED := "uploadReleasedAt"
  const LEASE_AT := "uploadLeaseAt"
  const LEASE_FOR := "uploadLeaseFor"
  const CONTENT := "contentIdentity"

  const BOOKS := {DEVICE, STARTED, RELEASED, LEASE_AT, LEASE_FOR}

  const STALE_MS := 30 * 60_000
  const SKEW_MS := 5 * 60_000
  const MAX_SAFE := 9007199254740991

  /** What a lease is bound to. */
  datatype Binding = Binding(nodeKey: string, fileId: string, content: string, device: string, stamp: int)

  /** How a text reads as a safe integer, and how a binding is written. */
  datatype Texts = Texts(number: string -> Option<int>, encode: Binding -> string)

  ghost predicate Sound(x: Texts) {
    && (forall n: nat :: n < MAX_SAFE ==> x.number(Decimal(n)) == Some(n))
    && (forall n: nat :: n >= MAX_SAFE ==> x.number(Decimal(n)).None? || x.number(Decimal(n)).value >= MAX_SAFE)
    && (forall n: nat :: n > 0 ==> x.number("-" + Decimal(n)).None? || x.number("-" + Decimal(n)).value < 0)
    && (forall a, b :: x.encode(a) == x.encode(b) ==> a == b)
  }

  const PROTOTYPE_NAMES := {
    "constructor", "hasOwnProperty", "isPrototypeOf", "propertyIsEnumerable", "toLocaleString", "toString", "valueOf",
    "__proto__", "__defineGetter__", "__defineSetter__", "__lookupGetter__", "__lookupSetter__"
  }

  predicate IsWordUnit(c: char) {
    'a' <= c <= 'z' || 'A' <= c <= 'Z' || '0' <= c <= '9' || c in {'_', '.', ':', '-'}
  }

  predicate IsLocalFile(fileId: Option<string>) {
    && fileId.Some? && 0 < |fileId.value| <= 256
    && !("cloud-" <= fileId.value) && fileId.value !in PROTOTYPE_NAMES
    && forall i :: 0 <= i < |fileId.value| ==> IsWordUnit(fileId.value[i])
  }

  /** The same as code points: hyphen, point, the digits and the colon after them, letters, and the underscore. */
  lemma WordUnitExactlyWhen(c: char)
    ensures var n := c as int;
      IsWordUnit(c) <==> 0x2D <= n <= 0x2E || 0x30 <= n <= 0x3A || 0x41 <= n <= 0x5A || n == 0x5F || 0x61 <= n <= 0x7A
  {
  }

  /** A name of a file on this machine: not too long, of those units only, and neither a cloud's nor the prototype's. */
  lemma LocalFileExactlyWhen(fileId: string)
    ensures IsLocalFile(Some(fileId)) <==>
              !(fileId == "" || |fileId| > 256 || fileId in PROTOTYPE_NAMES
                || (|fileId| >= 6 && fileId[..6] == "cloud-")
                || exists i :: 0 <= i < |fileId| && !IsWordUnit(fileId[i]))
    ensures !IsLocalFile(None)
  {
    hide IsWordUnit;
    if "cloud-" <= fileId {
      assert fileId[..6] == "cloud-";
    }
  }

  function Get(meta: Meta, key: string): Option<string> {
    if key in meta then Some(meta[key]) else None
  }

  predicate Named(text: Option<string>) {
    text.Some? && text.value != ""
  }

  function IntText(n: int): string {
    if n < 0 then "-" + Decimal(-n) else Decimal(n)
  }

  predicate Readable(n: int) {
    0 <= n < MAX_SAFE
  }

  /** A time on record, or none where the text is not a readable one. */
  function UploadTime(x: Texts, text: Option<string>): Option<int> {
    if text.Some? && x.number(text.value).Some? && Readable(x.number(text.value).value) then x.number(text.value) else None
  }

  function Later(a: Option<int>, b: Option<int>): Option<int> {
    if a.None? then b else if b.None? || a.value >= b.value then a else b
  }

  function BookkeepingTime(x: Texts, meta: Meta): Option<int> {
    Later(if Named(Get(meta, DEVICE)) then UploadTime(x, Get(meta, STARTED)) else None, UploadTime(x, Get(meta, RELEASED)))
  }

  function NextStamp(x: Texts, meta: Meta, now: int): int {
    match BookkeepingTime(x, meta)
    case None => now
    case Some(previous) => if now >= previous + 1 then now else previous + 1
  }

  function WithoutClaim(meta: Meta): Meta {
    meta - BOOKS
  }

  function BindingOf(x: Texts, data: Data, nodeKey: Option<string>): Option<Binding> {
    var owner, stamp := Get(data.meta, DEVICE), UploadTime(x, Get(data.meta, STARTED));
    if !Named(nodeKey) || !Named(owner) || !IsLocalFile(data.fileId) || stamp.None? then None
    else
      var content := if CONTENT in data.meta then data.meta[CONTENT] else data.fileId.value;
      Some(Binding(nodeKey.value, data.fileId.value, content, owner.value, stamp.value))
  }

  function LeaseTime(x: Texts, data: Data, nodeKey: Option<string>): Option<int> {
    var binding := BindingOf(x, data, nodeKey);
    if binding.Some? && Get(data.meta, LEASE_FOR) == Some(x.encode(binding.value)) then UploadTime(x, Get(data.meta, LEASE_AT))
    else None
  }

  function ClaimTime(x: Texts, data: Data, nodeKey: Option<string>): Option<int> {
    if !Named(Get(data.meta, DEVICE)) then None
    else if LEASE_AT in data.meta || LEASE_FOR in data.meta then LeaseTime(x, data, nodeKey)
    else UploadTime(x, Get(data.meta, STARTED))
  }

  function Claim(x: Texts, data: Data, device: string, now: int, nodeKey: Option<string>): Meta {
    var meta := WithoutClaim(data.meta)[DEVICE := device][STARTED := IntText(NextStamp(x, data.meta, now))];
    var binding := BindingOf(x, data.(meta := meta), nodeKey);
    if binding.Some? then meta[LEASE_AT := IntText(now)][LEASE_FOR := x.encode(binding.value)] else meta
  }

  function Release(x: Texts, meta: Meta, now: int): Meta {
    WithoutClaim(meta)[RELEASED := IntText(NextStamp(x, meta, now))]
  }

  // ---------------------------------------------------------------- believing a claim

  predicate UploadingElsewhere(x: Texts, data: Data, device: string, now: int, nodeKey: Option<string>) {
    if Named(data.mediaId) || !IsLocalFile(data.fileId) then false
    else
      var owner, since := Get(data.meta, DEVICE), ClaimTime(x, data, nodeKey);
      Named(owner) && owner.value != device && since.Some? && since.value - now <= SKEW_MS && now - since.value < STALE_MS
  }

  function ClaimNextChange(x: Texts, data: Data, device: string, now: int, nodeKey: Option<string>): Option<int> {
    if Named(data.mediaId) || !IsLocalFile(data.fileId) then None
    else
      var owner, since := Get(data.meta, DEVICE), ClaimTime(x, data, nodeKey);
      if !Named(owner) || owner.value == device || since.None? then None
      else if since.value - now > SKEW_MS then Some(since.value - SKEW_MS)
      else if now - since.value < STALE_MS then Some(since.value + STALE_MS)
      else None
  }

  /**
   * The next change is the first later instant with another answer, and there is none exactly when the answer
   * stays.
   */
  lemma NextChangeIsTheNext(x: Texts, data: Data, device: string, now: int, nodeKey: Option<string>)
    ensures var next := ClaimNextChange(x, data, device, now, nodeKey);
      && (next.Some? ==>
            && now < next.value
            && UploadingElsewhere(x, data, device, next.value, nodeKey) != UploadingElsewhere(x, data, device, now, nodeKey))
      && forall t :: now <= t && (next.Some? ==> t < next.value) ==>
           UploadingElsewhere(x, data, device, t, nodeKey) == UploadingElsewhere(x, data, device, now, nodeKey)
  {
  }

  /**
   * A released card is nobody's: no device believes it is uploading, nothing will change that, and its other
   * entries stay.
   */
  lemma ReleasedIsNobodys(x: Texts, data: Data, now: int, device: string, t: int, nodeKey: Option<string>, key: string)
    ensures var released := data.(meta := Release(x, data.meta, now));
      && !UploadingElsewhere(x, released, device, t, nodeKey)
      && ClaimNextChange(x, released, device, t, nodeKey).None?
      && (key !in BOOKS ==> Get(released.meta, key) == Get(data.meta, key))
      && (key in BOOKS ==> (key in released.meta <==> key == RELEASED))
  {
    hide IsLocalFile, IntText, NextStamp;
    assert Get(Release(x, data.meta, now), DEVICE) == None;
  }

  /** A claim replaces whatever was on the books and touches no other entry. */
  lemma ClaimReplacesBooks(x: Texts, data: Data, device: string, now: int, nodeKey: Option<string>, key: string)
    ensures var meta := Claim(x, data, device, now, nodeKey);
      && (key !in BOOKS ==> Get(meta, key) == Get(data.meta, key))
      && RELEASED !in meta && DEVICE in meta && STARTED in meta
      && (LEASE_AT in meta <==> LEASE_FOR in meta)
  {
    hide IsLocalFile, IntText, NextStamp, UploadTime;
  }

  // ---------------------------------------------------------------- stamps

  datatype Step = Claims(data: Data, device: string, nodeKey: Option<string>, now: int) | Releases(now: int)

  /** The card's own edits between two steps change nothing about the bookkeeping. */
  predicate SameBooks(a: Meta, b: Meta) {
    Get(a, DEVICE) == Get(b, DEVICE) && Get(a, STARTED) == Get(b, STARTED) && Get(a, RELEASED) == Get(b, RELEASED)
  }

  function StepMeta(x: Texts, meta: Meta, step: Step): Meta {
    match step
    case Claims(data, device, nodeKey, now) => Claim(x, data.(meta := meta), device, now, nodeKey)
    case Releases(now) => Release(x, meta, now)
  }

  /** What a step writes as its time. */
  function Stamp(x: Texts, meta: Meta, step: Step): int {
    NextStamp(x, meta, step.now)
  }

  lemma WrittenReads(x: Texts, n: int)
    requires Sound(x)
    ensures UploadTime(x, Some(IntText(n))) == if Readable(n) then Some(n) else None
  {
    hide Decimal;
    if n < 0 {
      assert IntText(n) == "-" + Decimal(-n);
    }
  }

  /** The books show the last stamp as long as it is readable and, for a claim, made by a named device. */
  lemma StampIsOnBooks(x: Texts, meta: Meta, step: Step)
    requires Sound(x)
    ensures BookkeepingTime(x, StepMeta(x, meta, step)) ==
      if Readable(Stamp(x, meta, step)) && (step.Claims? ==> step.device != "") then Some(Stamp(x, meta, step)) else None
  {
    hide Decimal, Sound;
    WrittenReads(x, Stamp(x, meta, step));
    hide UploadTime, IntText, NextStamp, BindingOf;
    var after := StepMeta(x, meta, step);
    var text := Some(IntText(Stamp(x, meta, step)));
    match step
    case Claims(data, device, nodeKey, now) =>
      assert Get(after, DEVICE) == Some(device) && Get(after, STARTED) == text && Get(after, RELEASED) == None;
      assert UploadTime(x, None) == None by { NothingReads(x); }
    case Releases(now) =>
      assert Get(after, DEVICE) == None && Get(after, RELEASED) == text;
  }

  lemma NothingReads(x: Texts)
    ensures UploadTime(x, None) == None
  {
  }

  /** A stamp comes after the one before exactly when that one was readable on the books or the clock is ahead of it. */
  lemma LaterExactlyWhen(x: Texts, meta: Meta, first: Step, between: Meta, second: Step)
    requires Sound(x) && SameBooks(StepMeta(x, meta, first), between)
    ensures Stamp(x, meta, first) < Stamp(x, between, second)
      <==> (Readable(Stamp(x, meta, first)) && (first.Claims? ==> first.device != "")) || second.now > Stamp(x, meta, first)
  {
    StampIsOnBooks(x, meta, first);
    hide UploadTime, StepMeta, Sound, Readable;
    assert BookkeepingTime(x, StepMeta(x, meta, first)) == BookkeepingTime(x, between);
  }

  /** A history: the metadata before each step, which keeps the books the step before left. */
  predicate History(x: Texts, metas: seq<Meta>, steps: seq<Step>) {
    && |metas| == |steps|
    && forall i :: 0 < i < |steps| ==> SameBooks(StepMeta(x, metas[i - 1], steps[i - 1]), metas[i])
  }

  /** Whatever the clocks of the devices say, stamps go up, step by step, as long as they can be read. */
  lemma {:induction false} StampsGoUp(x: Texts, metas: seq<Meta>, steps: seq<Step>, j: nat, k: nat)
    requires Sound(x) && History(x, metas, steps) && j < k < |steps|
    requires forall i :: j <= i < k ==>
      Readable(Stamp(x, metas[i], steps[i])) && (steps[i].Claims? ==> steps[i].device != "")
    ensures Stamp(x, metas[j], steps[j]) < Stamp(x, metas[k], steps[k])
    decreases k
  {
    hide Readable, Stamp, StepMeta, Sound, SameBooks;
    LaterExactlyWhen(x, metas[k - 1], steps[k - 1], metas[k], steps[k]);
    if j < k - 1 {
      StampsGoUp(x, metas, steps, j, k - 1);
    }
  }

  /** A time on the books: of the last release, or of a claim whose device is named. */
  predicate OnBooks(x: Texts, meta: Meta, t: int) {
    || UploadTime(x, Get(meta, RELEASED)) == Some(t)
    || (Named(Get(meta, DEVICE)) && UploadTime(x, Get(meta, STARTED)) == Some(t))
  }

  /** The next stamp is the least time that is neither before the clock nor at or before one on the books. */
  lemma NextStampIsLeast(x: Texts, meta: Meta, now: int)
    ensures var next := NextStamp(x, meta, now);
      && now <= next
      && (forall t :: OnBooks(x, meta, t) ==> t < next)
      && (next == now || OnBooks(x, meta, next - 1))
  {
    hide UploadTime;
  }

  // ---------------------------------------------------------------- leases

  /** A lease with one of its entries gone, and a claim without a device, count for nothing. */
  lemma HalfALeaseIsNone(x: Texts, data: Data, nodeKey: Option<string>)
    requires (LEASE_AT in data.meta) != (LEASE_FOR in data.meta) || !Named(Get(data.meta, DEVICE))
    ensures ClaimTime(x, data, nodeKey).None?
  {
  }

  /** What a claim binds its lease to. */
  function Bound(x: Texts, data: Data, device: string, now: int, nodeKey: Option<string>): Option<Binding> {
    var stamp := NextStamp(x, data.meta, now);
    if !Named(nodeKey) || device == "" || !IsLocalFile(data.fileId) || !Readable(stamp) then None
    else
      var content := if CONTENT in data.meta then data.meta[CONTENT] else data.fileId.value;
      Some(Binding(nodeKey.value, data.fileId.value, content, device, stamp))
  }

  lemma ClaimWrites(x: Texts, data: Data, device: string, now: int, nodeKey: Option<string>)
    requires Sound(x)
    ensures var meta, bound := Claim(x, data, device, now, nodeKey), Bound(x, data, device, now, nodeKey);
      && Get(meta, DEVICE) == Some(device)
      && Get(meta, STARTED) == Some(IntText(NextStamp(x, data.meta, now)))
      && Get(meta, LEASE_AT) == (if bound.Some? then Some(IntText(now)) else None)
      && Get(meta, LEASE_FOR) == (if bound.Some? then Some(x.encode(bound.value)) else None)
      && BindingOf(x, data.(meta := meta), nodeKey) == bound
  {
    hide Sound, Decimal;
    WrittenReads(x, NextStamp(x, data.meta, now));
    hide IntText, NextStamp, UploadTime, IsLocalFile;
  }

  /**
   * A lease taken with a node key reads back as the time of the claim, wherever its two entries are copied,
   * exactly as long as node, file, content, device and stamp are still those of the claim; and as nothing otherwise.
   */
  lemma LeaseHoldsExactlyWhen(x: Texts, data: Data, device: string, now: int, nodeKey: Option<string>, later: Data,
      laterKey: Option<string>)
    requires Sound(x) && Readable(now)
    requires Bound(x, data, device, now, nodeKey).Some?
    requires var meta := Claim(x, data, device, now, nodeKey);
      Get(later.meta, LEASE_AT) == Get(meta, LEASE_AT) && Get(later.meta, LEASE_FOR) == Get(meta, LEASE_FOR)
    ensures ClaimTime(x, later, laterKey) ==
      if BindingOf(x, later, laterKey) == Bound(x, data, device, now, nodeKey) then Some(now) else None
  {
    hide Decimal;
    ClaimWrites(x, data, device, now, nodeKey);
    WrittenReads(x, now);
    hide Bound, Claim, IntText, UploadTime;
    assert LEASE_AT in later.meta;
    if BindingOf(x, later, laterKey) == Bound(x, data, device, now, nodeKey) {
      assert Named(Get(later.meta, DEVICE));
    }
  }

  /** A device never takes its own upload for another's, nor anything for one that is uploaded or not a local file. */
  lemma NeverElsewhere(x: Texts, data: Data, device: string, now: int, nodeKey: Option<string>)
    requires Get(data.meta, DEVICE) == Some(device) || Named(data.mediaId) || !IsLocalFile(data.fileId)
    ensures !UploadingElsewhere(x, data, device, now, nodeKey)
    ensures ClaimNextChange(x, data, device, now, nodeKey).None?
  {
  }

  /**
   * Right after a claim with a node key others believe it for half an hour from the claim's own time; without one,
   * from its stamp.
   */
  lemma FreshClaimIsBelieved(x: Texts, data: Data, device: string, now: int, nodeKey: Option<string>, other: string,
      t: int)
    requires Sound(x) && Readable(now) && device != ""
    requires !Named(data.mediaId) && IsLocalFile(data.fileId) && Readable(NextStamp(x, data.meta, now))
    ensures var claimed := data.(meta := Claim(x, data, device, now, nodeKey));
      var since := if Named(nodeKey) then now else NextStamp(x, data.meta, now);
      UploadingElsewhere(x, claimed, other, t, nodeKey) <==> other != device && since - SKEW_MS <= t < since + STALE_MS
  {
    hide Decimal;
    var claimed := data.(meta := Claim(x, data, device, now, nodeKey));
    ClaimWrites(x, data, device, now, nodeKey);
    WrittenReads(x, NextStamp(x, data.meta, now));
    if Named(nodeKey) {
      LeaseHoldsExactlyWhen(x, data, device, now, nodeKey, claimed, nodeKey);
    }
    hide Claim, IntText, UploadTime, IsLocalFile, NextStamp, BindingOf;
  }

  // ---------------------------------------------------------------- texts as they are written

  /** Plain decimal numbers, and bindings as lists of JSON texts. */
  const PLAIN_TEXTS: Texts := Texts(s => NumberOf(s), b => BindingText(b))

  function NumberOf(s: string): Option<int> {
    if IsNumeral(s) then Some(Value(s))
    else if |s| > 1 && s[0] == '-' && IsNumeral(s[1..]) then Some(0 - Value(s[1..]))
    else None
  }

  function BindingText(b: Binding): string {
    var last := J.Quoted(b.device) + ("," + IntText(b.stamp));
    J.Quoted(b.nodeKey) + ("," + (J.Quoted(b.fileId) + ("," + (J.Quoted(b.content) + ("," + last)))))
  }

  lemma BindingTextInjective(a: Binding, b: Binding)
    requires BindingText(a) == BindingText(b)
    ensures a == b
  {
    hide J.Quoted, IntText;
    var a4, b4 := "," + IntText(a.stamp), "," + IntText(b.stamp);
    var a3, b3 := "," + (J.Quoted(a.device) + a4), "," + (J.Quoted(b.device) + b4);
    var a2, b2 := "," + (J.Quoted(a.content) + a3), "," + (J.Quoted(b.content) + b3);
    var a1, b1 := "," + (J.Quoted(a.fileId) + a2), "," + (J.Quoted(b.fileId) + b2);
    J.QuoteSplits(a.nodeKey, a1, b.nodeKey, b1);
    AfterComma(J.Quoted(a.fileId) + a2, J.Quoted(b.fileId) + b2);
    J.QuoteSplits(a.fileId, a2, b.fileId, b2);
    AfterComma(J.Quoted(a.content) + a3, J.Quoted(b.content) + b3);
    J.QuoteSplits(a.content, a3, b.content, b3);
    AfterComma(J.Quoted(a.device) + a4, J.Quoted(b.device) + b4);
    J.QuoteSplits(a.device, a4, b.device, b4);
    AfterComma(IntText(a.stamp), IntText(b.stamp));
    IntTextInjective(a.stamp, b.stamp);
  }

  lemma AfterComma(s: string, t: string)
    requires "," + s == "," + t
    ensures s == t
  {
    assert ("," + s)[1..] == s && ("," + t)[1..] == t;
  }

  lemma IntTextInjective(m: int, n: int)
    requires IntText(m) == IntText(n)
    ensures m == n
  {
    hide Decimal;
    assert m >= 0 ==> IsDecimal(IntText(m)[0]);
    assert n >= 0 ==> IsDecimal(IntText(n)[0]);
    if m >= 0 {
      DecimalInjective(m, n);
    } else {
      assert IntText(m)[1..] == Decimal(-m) && IntText(n)[1..] == Decimal(-n);
      DecimalInjective(-m, -n);
    }
  }

  lemma PlainTextsAreSound()
    ensures Sound(PLAIN_TEXTS)
  {
    hide Decimal, Value, BindingText;
    forall n: nat ensures PLAIN_TEXTS.number(Decimal(n)) == Some(n) {
      ReadsBack(n);
    }
    forall n: nat | n > 0 ensures PLAIN_TEXTS.number("-" + Decimal(n)) == Some(0 - n) {
      ReadsBack(n);
      MinusIsNoNumeral(Decimal(n));
    }
    forall a, b | PLAIN_TEXTS.encode(a) == PLAIN_TEXTS.encode(b) ensures a == b {
      BindingTextInjective(a, b);
    }
  }

  /** Zero is a time, and less than that is none. */
  lemma PlainTimes()
    ensures UploadTime(PLAIN_TEXTS, Some("0")) == Some(0) && UploadTime(PLAIN_TEXTS, Some("-1")).None?
    ensures UploadTime(PLAIN_TEXTS, Some("")).None? && UploadTime(PLAIN_TEXTS, None).None?
  {
    hide Sound;
    PlainTextsAreSound();
    WrittenReads(PLAIN_TEXTS, 0);
    WrittenReads(PLAIN_TEXTS, -1);
    assert IntText(0) == "0" && IntText(-1) == "-1";
  }

  lemma MinusIsNoNumeral(s: string)
    ensures !IsNumeral("-" + s) && ("-" + s)[1..] == s
  {
    assert ("-" + s)[0] == '-' && !IsDecimal('-');
  }

  /** A stamp at the limit is forgotten: the next one, by a clock that starts from zero, is behind it. */
  lemma LimitIsForgotten()
    ensures var x := PLAIN_TEXTS;
      var meta := StepMeta(x, map[], Releases(MAX_SAFE));
      && Sound(x) && Stamp(x, map[], Releases(MAX_SAFE)) == MAX_SAFE && Stamp(x, meta, Releases(0)) == 0
  {
    hide Decimal, Value, Sound;
    PlainTextsAreSound();
    var x := PLAIN_TEXTS;
    NothingReads(x);
    assert BookkeepingTime(x, map[]) == None;
    StampIsOnBooks(x, map[], Releases(MAX_SAFE));
  }
}
