/** Logins and service records whose files are torn, and what a reader then makes of them. */
module TornLogins {
  import opened Basics
  import opened RecordFile
  import opened TornText
  import opened TornRecords
  import J = JsonObjects
  import CredentialStore

  // ---------------------------------------------------------------- stored logins

  const AHEAD_NAMES := {"access_expires_at", "access_token", "base_url"}

  const BEHIND_NAMES := {"login_device_code_hash", "refresh_expires_at", "refresh_request_id", "refresh_token"}

  /** The members that are read into a login; others are ignored. */
  const LOGIN_NAMES := AHEAD_NAMES + BEHIND_NAMES

  function Known(m: Members, names: set<string>): Members {
    map k | k in m && k in names :: m[k]
  }

  lemma NamesAhead(k: string)
    ensures k in AHEAD_NAMES ==> |CHECKSUM| <= |k| && (k[0] == 'a' || k[0] == 'b')
  {
  }

  lemma NamesBehind(k: string)
    ensures k in BEHIND_NAMES ==> |CHECKSUM| <= |k| && (k[0] == 'l' || k[0] == 'r')
  {
  }

  lemma FirstDecides(k: string)
    requires k != "" && k[0] != 'c'
    ensures J.AtMost(k, CHECKSUM) <==> k[0] < 'c'
  {
    assert CHECKSUM[0] == 'c';
  }

  lemma LoginParts(m: Members)
    requires m.Keys <= LOGIN_NAMES
    ensures Ahead(m) == Known(m, AHEAD_NAMES) && Behind(m) == Known(m, BEHIND_NAMES) && CHECKSUM !in m
  {
    hide J.AtMost;
    forall k | k in m
      ensures (k in AHEAD_NAMES) != (k in BEHIND_NAMES) && (J.AtMost(k, CHECKSUM) <==> k in AHEAD_NAMES)
    {
      NameSide(k);
    }
    assert CHECKSUM !in LOGIN_NAMES by { ChecksumIsNoName(); }
  }

  lemma NameSide(k: string)
    requires k in LOGIN_NAMES
    ensures (k in AHEAD_NAMES) != (k in BEHIND_NAMES) && (J.AtMost(k, CHECKSUM) <==> k in AHEAD_NAMES)
    ensures k != CHECKSUM && |CHECKSUM| <= |k| && k[0] != 'c'
  {
    hide J.AtMost, AHEAD_NAMES, BEHIND_NAMES;
    NamesAhead(k);
    NamesBehind(k);
    FirstDecides(k);
    assert CHECKSUM[0] == 'c';
  }

  lemma ChecksumIsNoName()
    ensures CHECKSUM !in LOGIN_NAMES
  {
    forall k | k in LOGIN_NAMES ensures k != CHECKSUM {
      NameSide(k);
    }
  }

  lemma RemainsIsNoName(before: nat, later: nat)
    requires before != later && Forward(before, later) <= |CHECKSUM| && Forward(later, before) <= |CHECKSUM|
    ensures Remains(before, later) !in LOGIN_NAMES
  {
    var s := Remains(before, later);
    forall k | k in LOGIN_NAMES ensures k != s {
      NameSide(k);
      assert later < before ==> s[0] == 'c';
    }
  }

  /**
   * A refresh after which the text ahead of the checksum is one to eight units longer or shorter, as the access
   * token's time can make it: some state of the write is taken for a login with the new access token and the old
   * refresh token.
   */
  lemma RefreshIsMixed(digest: Digest, before: Members, later: Members) returns (k: nat)
    requires Writable(digest, before) && Writable(digest, later) && KeyMoves(before, later)
    requires before.Keys <= LOGIN_NAMES && later.Keys <= LOGIN_NAMES
    ensures k <= |Frame(Json(digest), later)|
    ensures var read := Unframe(Json(digest), During(digest, before, later, k));
      var mixed := Known(later, AHEAD_NAMES) + Known(before, BEHIND_NAMES);
      && read.Record? && Known(read.members, LOGIN_NAMES) == mixed && mixed != before
      && (mixed == later <==> Known(before, BEHIND_NAMES) == Known(later, BEHIND_NAMES))
  {
    hide During, Frame, Json, Unframe, Offset, Remains, J.AtMost;
    LoginParts(before);
    LoginParts(later);
    k := MovedKeyReadsAThird(digest, before, later);
    RemainsIsNoName(Offset(before), Offset(later));
    var rest := Remains(Offset(before), Offset(later));
    KnownOfThird(before, later, rest, digest(before));
    OffsetIsOfAhead(before, later);
    MixedIsNeither(before, later);
  }

  lemma OffsetIsOfAhead(before: Members, later: Members)
    requires Offset(before) != Offset(later)
    ensures Ahead(before) != Ahead(later)
  {
  }

  lemma KnownOfThird(before: Members, later: Members, rest: string, d: string)
    requires before.Keys <= LOGIN_NAMES && later.Keys <= LOGIN_NAMES && rest !in LOGIN_NAMES
    ensures Known(Known(later, AHEAD_NAMES) + map[rest := d] + Known(before, BEHIND_NAMES), LOGIN_NAMES)
         == Known(later, AHEAD_NAMES) + Known(before, BEHIND_NAMES)
  {
  }

  lemma MixedIsNeither(before: Members, later: Members)
    requires before.Keys <= LOGIN_NAMES && later.Keys <= LOGIN_NAMES
    ensures var mixed := Known(later, AHEAD_NAMES) + Known(before, BEHIND_NAMES);
      && (mixed == before <==> Known(before, AHEAD_NAMES) == Known(later, AHEAD_NAMES))
      && (mixed == later <==> Known(before, BEHIND_NAMES) == Known(later, BEHIND_NAMES))
  {
    var mixed := Known(later, AHEAD_NAMES) + Known(before, BEHIND_NAMES);
    forall k ensures !(k in AHEAD_NAMES && k in BEHIND_NAMES) {
      if k in AHEAD_NAMES {
        NameSide(k);
      }
    }
    assert Known(mixed, AHEAD_NAMES) == Known(later, AHEAD_NAMES);
    assert Known(mixed, BEHIND_NAMES) == Known(before, BEHIND_NAMES);
    assert before == Known(before, AHEAD_NAMES) + Known(before, BEHIND_NAMES);
    assert later == Known(later, AHEAD_NAMES) + Known(later, BEHIND_NAMES);
  }

  // ---------------------------------------------------------------- one member ahead

  lemma OneSorted(k: string, v: string)
    ensures J.Sorted(map[k := v]) == [k, v]
  {
    J.AtMostIsTotal(k, k);
    J.LeastIs(map[k := v], k);
    assert map[k := v] - {k} == map[];
    J.NothingSorted();
  }

  /** A record with one member ahead of the checksum. */
  lemma OneAhead(m: Members, k: string, v: string)
    requires Ahead(m) == map[k := v]
    ensures Place(m) == 2 && Offset(m) == |k| + |v| + 6 && J.Sorted(Ahead(m)) == [k, v]
  {
    OneSorted(k, v);
    assert [k, v][1..] == [v] && Start([k, v], 2) == |k| + 3 + Start([v], 1);
    assert Start([v], 1) == |v| + 3;
  }

  const ACCESS := "access_token"

  const REFRESH := "refresh_token"

  function Tokens(access: string, refresh: string): Members {
    map[ACCESS := access, REFRESH := refresh]
  }

  lemma TokensParts(access: string, refresh: string)
    ensures Tokens(access, refresh).Keys <= LOGIN_NAMES
    ensures Known(Tokens(access, refresh), AHEAD_NAMES) == map[ACCESS := access]
    ensures Known(Tokens(access, refresh), BEHIND_NAMES) == map[REFRESH := refresh]
    ensures Ahead(Tokens(access, refresh)) == map[ACCESS := access]
  {
    hide J.AtMost;
    assert ACCESS in AHEAD_NAMES && REFRESH in BEHIND_NAMES;
    TokenSides();
    LoginParts(Tokens(access, refresh));
  }

  lemma TokenSides()
    ensures ACCESS in AHEAD_NAMES && ACCESS !in BEHIND_NAMES
    ensures REFRESH in BEHIND_NAMES && REFRESH !in AHEAD_NAMES
  {
    hide J.AtMost, AHEAD_NAMES, BEHIND_NAMES;
    assert ACCESS in AHEAD_NAMES by { NamesHaveTokens(); }
    assert REFRESH in BEHIND_NAMES by { NamesHaveTokens(); }
    NameSide(ACCESS);
    NameSide(REFRESH);
  }

  lemma NamesHaveTokens()
    ensures ACCESS in AHEAD_NAMES && REFRESH in BEHIND_NAMES
  {
  }

  /** An access token one to eight units longer or shorter, and the new one can be read with the old refresh token. */
  lemma TokenLengthMixes(digest: Digest, t: string, r: string, u: string, s: string) returns (k: nat)
    requires Writable(digest, Tokens(t, r)) && Writable(digest, Tokens(u, s))
    requires |t| != |u| && |u| <= |t| + |CHECKSUM| && |t| <= |u| + |CHECKSUM|
    ensures k <= |Frame(Json(digest), Tokens(u, s))|
    ensures var read := Unframe(Json(digest), During(digest, Tokens(t, r), Tokens(u, s), k));
      read.Record? && Known(read.members, LOGIN_NAMES) == Tokens(u, r)
  {
    hide During, Frame, Json, Unframe, Offset, Known, Ahead, LOGIN_NAMES, AHEAD_NAMES, BEHIND_NAMES, Writable,
      Tokens;
    TokensParts(t, r);
    TokensParts(u, s);
    OneAhead(Tokens(t, r), ACCESS, t);
    OneAhead(Tokens(u, s), ACCESS, u);
    k := RefreshIsMixed(digest, Tokens(t, r), Tokens(u, s));
    TokensMerge(u, r);
  }

  lemma TokensMerge(access: string, refresh: string)
    ensures map[ACCESS := access] + map[REFRESH := refresh] == Tokens(access, refresh)
  {
  }

  // ---------------------------------------------------------------- the service record

  const BASE_URL := "base_url"

  function Service(url: string): Members {
    map[BASE_URL := url]
  }

  lemma ServiceTexts(digest: Digest, url: string)
    requires Writable(digest, Service(url))
    ensures Framed(digest, Service(url)) == [BASE_URL, url, CHECKSUM, digest(Service(url))]
    ensures Place(Service(url)) == 2 && Offset(Service(url)) == |url| + 14
    ensures |BASE_URL| == 8 && |CHECKSUM| == 8
  {
    hide J.Sorted, Plain, J.AtMost, Writable, Start;
    ServiceSides(url);
    OneAhead(Service(url), BASE_URL, url);
    assert Behind(Service(url)) == map[];
    J.NothingSorted();
    assert CHECKSUM !in Service(url);
    FramedIs(digest, Service(url));
  }

  lemma ServiceSides(url: string)
    ensures Ahead(Service(url)) == Service(url) && Behind(Service(url)) == map[]
    ensures BASE_URL != CHECKSUM && |BASE_URL| == 8 && |CHECKSUM| == 8
  {
    FirstDecides(BASE_URL);
    assert BASE_URL[0] == 'b' && CHECKSUM[0] == 'c';
  }

  /**
   * Some state of a write of one service record over another loses its checksum if and only if the addresses
   * differ in length by one to eight units, or the new one reaches past the old checksum's opening quote.
   */
  lemma ServiceLosesExactlyWhen(digest: Digest, w: string, v: string)
    requires Writable(digest, Service(w)) && Writable(digest, Service(v))
    ensures (exists k: nat :: LosesChecksum(digest, Service(w), Service(v), k))
        <==> (|v| != |w| && |v| <= |w| + 8 && |w| <= |v| + 8) || |w| + 14 <= |v|
  {
    hide During, Unchecked, Frame, Json, Slips, Offset, Place, Framed, Writable;
    ChecksumIsLostExactlyWhen(digest, Service(w), Service(v));
    ServiceTexts(digest, w);
    ServiceTexts(digest, v);
    if at :| Slips(digest, Service(w), Service(v), at) {
      ServiceSlips(digest, w, v, at);
    }
    if |v| != |w| && |v| <= |w| + 8 && |w| <= |v| + 8 {
      var at := KeysSlip(digest, Service(w), Service(v));
    }
    if |w| + 14 <= |v| {
      var at := AddressSlips(digest, w, v, 0);
    }
  }

  lemma FourStarts(a: string, b: string, c: string, d: string)
    ensures var t := [a, b, c, d];
      && Start(t, 0) == 0 && Start(t, 1) == |a| + 3 && Start(t, 2) == |a| + |b| + 6
      && Start(t, 3) == |a| + |b| + |c| + 9
  {
    assert [a, b, c, d][1..] == [b, c, d] && [b, c, d][1..] == [c, d] && [c, d][1..] == [d];
    assert Start([d], 0) == 0 && Start([c, d], 0) == 0 && Start([b, c, d], 0) == 0;
    assert Start([c, d], 1) == |c| + 3;
    assert Start([b, c, d], 1) == |b| + 3 && Start([b, c, d], 2) == |b| + |c| + 6;
  }

  lemma ServiceSlips(digest: Digest, w: string, v: string, at: Joint)
    requires Writable(digest, Service(w)) && Writable(digest, Service(v))
    requires Slips(digest, Service(w), Service(v), at)
    ensures (|v| != |w| && |v| <= |w| + 8 && |w| <= |v| + 8) || |w| + 14 <= |v|
  {
    hide Framed, Writable, Offset, Place, Start;
    ServiceTexts(digest, w);
    ServiceTexts(digest, v);
    FourStarts(BASE_URL, v, CHECKSUM, digest(Service(v)));
    FourStarts(BASE_URL, w, CHECKSUM, digest(Service(w)));
    if at.i == 2 && at.j == 2 {
      SameCutIsKey(at.a, at.b);
    }
  }

  /** `b` units into the old checksum, inside the new address. */
  lemma AddressSlips(digest: Digest, w: string, v: string, b: nat) returns (at: Joint)
    requires Writable(digest, Service(w)) && Writable(digest, Service(v))
    requires |w| + 14 + b <= |v| && b <= |digest(Service(w))|
    ensures at == Joint(1, |w| + 14 + b, 3, b) && Slips(digest, Service(w), Service(v), at)
  {
    hide Framed, Writable, Offset, Place, Start;
    ServiceTexts(digest, w);
    ServiceTexts(digest, v);
    FourStarts(BASE_URL, v, CHECKSUM, digest(Service(v)));
    FourStarts(BASE_URL, w, CHECKSUM, digest(Service(w)));
    at := Joint(1, |w| + 14 + b, 3, b);
  }

  /**
   * A new address that long is read cut off: up to what has been written of it, with the rest of the old checksum
   * behind it, and from the old file's last quote on with nothing behind it.
   */
  lemma ServiceIsCut(digest: Digest, w: string, v: string, b: nat) returns (k: nat)
    requires Writable(digest, Service(w)) && Writable(digest, Service(v))
    requires |w| + 14 + b <= |v| && b <= |digest(Service(w))|
    ensures k <= |Frame(Json(digest), Service(v))|
    ensures Unframe(Json(digest), During(digest, Service(w), Service(v), k))
         == Record(Service(v[..|w| + 14 + b] + digest(Service(w))[b..]))
  {
    hide During, Unchecked, Frame, Json, Framed, Offset, Place, Writable, Slips, J.Object;
    var at := AddressSlips(digest, w, v, b);
    SlipIsRead(digest, Service(w), Service(v), at);
    ServiceTexts(digest, w);
    ServiceTexts(digest, v);
    var l, o := Framed(digest, Service(v)), Framed(digest, Service(w));
    k := Reached(l, at) + 2;
    var address := v[..|w| + 14 + b] + digest(Service(w))[b..];
    assert Join(l, o, at) == [BASE_URL, address] + [];
    OneMember(BASE_URL, address, []);
    assert J.Object([]) == map[] by { NothingObject(); }
  }

  lemma NothingObject()
    ensures J.Object([]) == map[]
  {
  }

  // ---------------------------------------------------------------- files from before checksums

  /**
   * A file without a checksum, torn: wherever the new record, not yet past its checksum's key, meets the old texts at
   * the same distance in a text of the same kind, what is left loads as the joined texts.
   */
  lemma BareTearLoads(digest: Digest, bare: Members, later: Members, at: Joint)
    requires Writable(digest, later) && Bare(bare)
    requires Fits(Framed(digest, later), J.Sorted(bare), at)
    requires Reached(Framed(digest, later), at) == Left(J.Sorted(bare), at)
    requires at.i <= Place(later) && (at.i % 2 == 0 ==> Mixed(Framed(digest, later), J.Sorted(bare), at) != CHECKSUM)
    ensures var l, k := Framed(digest, later), Reached(Framed(digest, later), at) + 2;
      && k <= |Frame(Json(digest), later)| && |Join(l, J.Sorted(bare), at)| % 2 == 0
      && CredentialStore.EntryOf(Json(digest), Overlay(J.Encode(bare), Frame(Json(digest), later), k))
         == CredentialStore.Holds(J.Object(Join(l, J.Sorted(bare), at)))
  {
    hide J.Object, J.Sorted, J.ParseObject, J.Read, J.Written, Framed, Frame, Overlay, Join, Place, Reached, Left,
      Plain, J.Encode, State;
    var l, b := Framed(digest, later), J.Sorted(bare);
    var k := Reached(l, at);
    FramedFacts(digest, later);
    FrameIs(digest, later);
    BareTexts(bare);
    JointReads(l, true, b, true, at);
    StateIs(l, k, b);
    BodyOverlay(J.Written(b, true), J.Written(l, true), k);
    ParseBody(State(l, true, k, b, true, k));
    JoinLacksBoth(l, Place(later), b, at);
    LoadsAsRead(digest, Overlay(J.Encode(bare), Frame(Json(digest), later), k + 2), J.Object(Join(l, b, at)));
  }

  /** Something to be found in a file from before checksums. */
  predicate Bare(m: Members) {
    m != map[] && CHECKSUM !in m && forall k :: k in m ==> Plain(k) && Plain(m[k])
  }

  lemma BareTexts(m: Members)
    requires Bare(m)
    ensures J.Closed(J.Sorted(m), true) && AllPlain(J.Sorted(m))
    ensures J.Encode(m) == "{\"" + J.Written(J.Sorted(m), true)
    ensures !(exists i :: J.IsKeyAt(J.Sorted(m), i, CHECKSUM))
  {
    hide Plain, J.Written, J.Object, J.AtMost;
    SortedPlain(m);
    J.SortedMakes(m);
    J.KeyIn(J.Sorted(m), CHECKSUM);
  }

  lemma StateIs(l: J.Texts, k: nat, b: J.Texts)
    requires l != [] && b != [] && k <= |J.Written(l, true)|
    ensures State(l, true, k, b, true, k) == J.Written(l, true)[..k] + From(J.Written(b, true), k)
  {
  }

  lemma JoinLacksBoth(l: J.Texts, n: nat, b: J.Texts, at: Joint)
    requires |l| % 2 == 0 && |b| % 2 == 0 && OnlyKeyAt(l, n) && Fits(l, b, at) && at.i <= n
    requires !(exists i :: J.IsKeyAt(b, i, CHECKSUM)) && (at.i % 2 == 0 ==> Mixed(l, b, at) != CHECKSUM)
    ensures |Join(l, b, at)| % 2 == 0 && CHECKSUM !in J.Object(Join(l, b, at))
  {
    hide J.Object, Join, Mixed, Fits;
    JoinAt(l, b, at);
    var t := Join(l, b, at);
    J.KeyIn(t, CHECKSUM);
    forall i ensures !J.IsKeyAt(t, i, CHECKSUM) {
      if J.IsKeyAt(t, i, CHECKSUM) {
        KeyOfJoin(l, b, at, i);
      }
    }
  }

  lemma LoadsAsRead(digest: Digest, bytes: Bytes, m: Members)
    requires J.ParseObject(bytes) == Some(m) && CHECKSUM !in m
    ensures CredentialStore.EntryOf(Json(digest), bytes) == CredentialStore.Holds(m)
  {
    hide J.Read;
    assert bytes[0] == '{';
    assert !AllBlank(bytes);
  }

  /** Torn `a` units into an access token, such a file loads as a login with a token of both. */
  lemma TornTokenIsMixed(digest: Digest, t: string, u: string, a: nat)
    requires Writable(digest, map[ACCESS := u]) && Plain(t) && a <= |t| && a <= |u|
    ensures var bare, data := J.Encode(map[ACCESS := t]), Frame(Json(digest), map[ACCESS := u]);
      && |ACCESS| + a + 5 <= |data|
      && CredentialStore.EntryOf(Json(digest), Overlay(bare, data, |ACCESS| + a + 5))
         == CredentialStore.Holds(map[ACCESS := u[..a] + t[a..]])
  {
    hide J.Sorted, J.Object, J.Encode, Overlay, Frame, Json, Framed, Place, Plain, Start, J.AtMost;
    var bare, later := map[ACCESS := t], map[ACCESS := u];
    OneSorted(ACCESS, t);
    AccessTexts(digest, u);
    AccessIsPlain();
    var at := Joint(1, a, 1, a);
    TwoStarts(Framed(digest, later));
    TwoStarts(J.Sorted(bare));
    assert ACCESS in bare && Bare(bare);
    BareTearLoads(digest, bare, later, at);
    var mixed := u[..a] + t[a..];
    assert Framed(digest, later)[..2][0] == ACCESS && Framed(digest, later)[..2][1] == u;
    assert Reached(Framed(digest, later), at) == |ACCESS| + 3 + a;
    assert Join(Framed(digest, later), J.Sorted(bare), at) == [ACCESS, mixed] + [];
    OneMember(ACCESS, mixed, []);
    NothingObject();
    assert map[ACCESS := mixed] + map[] == map[ACCESS := mixed];
  }

  lemma AccessIsPlain()
    ensures Plain(ACCESS) && ACCESS != CHECKSUM
  {
    assert ACCESS[0] == 'a' && CHECKSUM[0] == 'c';
  }

  lemma TwoStarts(t: J.Texts)
    requires |t| > 1
    ensures Start(t, 1) == |t[0]| + 3
  {
    assert Start(t[1..], 0) == 0;
  }

  lemma AccessTexts(digest: Digest, u: string)
    requires Writable(digest, map[ACCESS := u])
    ensures Place(map[ACCESS := u]) == 2 && |Framed(digest, map[ACCESS := u])| == 4
    ensures Framed(digest, map[ACCESS := u])[..2] == [ACCESS, u]
  {
    hide J.Sorted, J.AtMost, Plain, Start;
    var m := map[ACCESS := u];
    AccessIsPlain();
    assert J.AtMost(ACCESS, CHECKSUM) by { AccessIsAhead(); }
    assert Ahead(m) == m && Behind(m) == map[];
    OneAhead(m, ACCESS, u);
    J.NothingSorted();
    FramedIs(digest, m);
  }

  lemma AccessIsAhead()
    ensures J.AtMost(ACCESS, CHECKSUM)
  {
    AccessIsPlain();
    FirstDecides(ACCESS);
    assert ACCESS[0] == 'a';
  }

  // ---------------------------------------------------------------- there is such a digest

  function Noughts(n: nat): string {
    if n == 0 then "" else "0" + Noughts(n - 1)
  }

  /** Each unit of a text in ones, with a nought behind. */
  function Tallied(s: string): string {
    if s == "" then "" else Ones(s[0] as int) + ("0" + Tallied(s[1..]))
  }

  function Ones(n: nat): string {
    if n == 0 then "" else "1" + Ones(n - 1)
  }

  ghost function Tally(m: Members): string {
    Noughts(DIGEST_SIZE) + Tallied(J.Encode(m))
  }

  lemma {:induction false} NoughtsAre(n: nat)
    ensures |Noughts(n)| == n && forall i :: 0 <= i < n ==> Noughts(n)[i] == '0'
  {
    if n > 0 {
      NoughtsAre(n - 1);
    }
  }

  lemma {:induction false} OnesEnd(m: nat, s: string, n: nat, t: string)
    requires Ones(m) + ("0" + s) == Ones(n) + ("0" + t)
    ensures m == n && s == t
  {
    var a, b := Ones(m) + ("0" + s), Ones(n) + ("0" + t);
    if m > 0 && n > 0 {
      assert a[1..] == Ones(m - 1) + ("0" + s) && b[1..] == Ones(n - 1) + ("0" + t);
      OnesEnd(m - 1, s, n - 1, t);
    } else {
      assert a[0] == (if m == 0 then '0' else '1') && b[0] == if n == 0 then '0' else '1';
      assert m == 0 ==> a[1..] == s;
      assert n == 0 ==> b[1..] == t;
    }
  }

  lemma {:induction false} TalliedInjective(s: string, t: string)
    requires Tallied(s) == Tallied(t)
    ensures s == t
  {
    if s != "" && t != "" {
      OnesEnd(s[0] as int, Tallied(s[1..]), t[0] as int, Tallied(t[1..]));
      TalliedInjective(s[1..], t[1..]);
      assert s == [s[0]] + s[1..] && t == [t[0]] + t[1..];
    }
  }

  lemma {:induction false} TalliedDigits(s: string)
    ensures forall i :: 0 <= i < |Tallied(s)| ==> Tallied(s)[i] in "01"
  {
    if s != "" {
      OnesDigits(s[0] as int);
      TalliedDigits(s[1..]);
    }
  }

  lemma {:induction false} OnesDigits(n: nat)
    ensures forall i :: 0 <= i < |Ones(n)| ==> Ones(n)[i] == '1'
  {
    if n > 0 {
      OnesDigits(n - 1);
    }
  }

  /** A digest that different records never share, long enough and plain, so that nothing above speaks of no digest. */
  lemma TallyIsDigest()
    ensures Injective(m => Tally(m))
    ensures forall m: Members :: Plain(Tally(m)) && DIGEST_SIZE <= |Tally(m)|
  {
    hide J.Encode, Noughts, Tallied, J.ParseObject;
    NoughtsAre(DIGEST_SIZE);
    forall m: Members, n: Members | Tally(m) == Tally(n) ensures m == n {
      assert Tally(m)[DIGEST_SIZE..] == Tallied(J.Encode(m)) && Tally(n)[DIGEST_SIZE..] == Tallied(J.Encode(n));
      TalliedInjective(J.Encode(m), J.Encode(n));
      J.EncodeReadsBack(m);
      J.EncodeReadsBack(n);
    }
    forall m: Members ensures Plain(Tally(m)) && DIGEST_SIZE <= |Tally(m)| {
      TalliedDigits(J.Encode(m));
      DigitsArePlain(Tally(m));
    }
  }

  lemma DigitsArePlain(s: string)
    requires forall i :: 0 <= i < |s| ==> s[i] in "01"
    ensures Plain(s)
  {
  }
}
