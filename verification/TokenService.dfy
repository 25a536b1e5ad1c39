/**
 * The refresh grant of the token endpoint (section 6 of RFC 6749), as the service answers it.
 *
 * Every refresh token after the first of a connection is derived from its predecessor and the
 * identity of the request that asked for it.  The derivation is a keyed hash; the datatype
 * `Token` keeps only what matters about it: different inputs give different tokens.
 * The access token is derived from the refresh token in turn, so naming the refresh token
 * names the pair.
 */
module TokenService {
  import opened Basics

  datatype Token =
    | Issued(connection: nat, nonce: nat)
    | Successor(predecessor: Token, key: nat)

  /** A row of the retired tokens: which request identity retired it (None: an older client), and when. */
  datatype Retirement = Retirement(key: Option<nat>, at: int)

  datatype Revocation = ByUser | ForReuse

  datatype Connection = Connection(
    current: Token,
    accessExpires: int,
    refreshExpires: int,
    revoked: Option<Revocation>,
    retired: map<Token, Retirement>)

  datatype Response =
    | Tokens(refresh: Token, expiresIn: nat)
    | InvalidGrant
    | RequestCompleted

  const ACCESS_TTL: int := 2 * 60 * 60 * 1000
  const REFRESH_TTL: int := 30 * 24 * 60 * 60 * 1000

  function ConnectionOf(t: Token): nat {
    match t
    case Issued(c, _) => c
    case Successor(p, _) => ConnectionOf(p)
  }

  function Generation(t: Token): nat {
    match t
    case Issued(_, _) => 0
    case Successor(p, _) => Generation(p) + 1
  }

  predicate Live(c: Connection, now: int) {
    c.revoked.None? && now < c.refreshExpires
  }

  function Open(id: nat, now: int): Connection {
    Connection(Issued(id, 0), now + ACCESS_TTL, now + REFRESH_TTL, None, map[])
  }

  /** The same tokens again, with the lifetime they have left, if they are still the current ones. */
  function Replay(c: Connection, refresh: Token, now: int): Response {
    if refresh != c.current || !Live(c, now) then InvalidGrant
    else Tokens(refresh, if c.accessExpires <= now then 0 else (c.accessExpires - now) / 1000)
  }

  /** Rows older than a refresh token can live are dropped with each rotation. */
  function Rotate(c: Connection, key: Option<nat>, nonce: nat, now: int): Connection {
    var next := if key.Some? then Successor(c.current, key.value) else Issued(ConnectionOf(c.current), nonce);
    var retired := c.retired[c.current := Retirement(key, now)];
    Connection(next, now + ACCESS_TTL, now + REFRESH_TTL, c.revoked,
               map t | t in retired && now - REFRESH_TTL <= retired[t].at :: retired[t])
  }

  predicate KeyUsed(c: Connection, key: nat) {
    exists t :: t in c.retired && c.retired[t].key == Some(key)
  }

  /** One refresh request against the connection its token belongs to. */
  function Grant(c: Connection, token: Token, key: Option<nat>, nonce: nat, now: int): (Connection, Response) {
    if token == c.current then
      if !Live(c, now) then (c, InvalidGrant)
      else if key.Some? && KeyUsed(c, key.value) then (c, RequestCompleted)
      else
        var next := Rotate(c, key, nonce, now);
        (next, Tokens(next.current, ACCESS_TTL / 1000))
    else if token !in c.retired then (c, InvalidGrant)
    else
      var again := if key.Some? then Replay(c, Successor(token, key.value), now) else InvalidGrant;
      if again.Tokens? then (c, again)
      else if c.retired[token].key.None? && c.revoked.None? then (c.(revoked := Some(ForReuse)), InvalidGrant)
      else (c, InvalidGrant)
  }

  /**
   * Tokens always belong to a live connection and are its current ones; their lifetime is what is left of it, in
   * whole seconds, and that is none only for tokens given out before.
   */
  lemma TokensAreCurrent(c: Connection, token: Token, key: Option<nat>, nonce: nat, now: int)
    ensures var (next, answer) := Grant(c, token, key, nonce, now);
      answer.Tokens? ==>
        && next.current == answer.refresh && Live(next, now)
        && (now < next.accessExpires ==>
              1000 * answer.expiresIn <= next.accessExpires - now < 1000 * (answer.expiresIn + 1))
        && (next.accessExpires <= now ==> answer.expiresIn == 0)
        && (token == c.current ==> answer.expiresIn > 0)
        && (token != c.current ==> next == c)
  {
  }

  /** Nobody has revoked the connection and its refresh token has not run out. */
  predicate Working(c: Connection, now: int) {
    c.revoked.None? && now < c.refreshExpires
  }

  /** A request with this identity has replaced a token of the connection. */
  predicate UsedBefore(c: Connection, key: Option<nat>) {
    key.Some? && exists t :: t in c.retired && c.retired[t].key == key
  }

  /** The request that brought the current token, once more. */
  predicate Repeats(c: Connection, token: Token, key: Option<nat>) {
    token in c.retired && key.Some? && c.current == Successor(token, key.value)
  }

  predicate Due(c: Connection, token: Token, key: Option<nat>) {
    if token == c.current then !UsedBefore(c, key) else Repeats(c, token, key)
  }

  /**
   * Tokens come for the current token of a working connection, unless the identity of the request was used before,
   * and again for the token before it under the identity that replaced it.
   */
  lemma AnsweredExactlyWhen(c: Connection, token: Token, key: Option<nat>, nonce: nat, now: int)
    ensures var (next, answer) := Grant(c, token, key, nonce, now);
      && (answer.Tokens? <==> Working(c, now) && Due(c, token, key))
      && (answer.RequestCompleted? <==> Working(c, now) && token == c.current && UsedBefore(c, key))
  {
  }

  /** A connection is revoked exactly by a token replaced without an identity, and otherwise changed by rotation only. */
  lemma RevokedExactlyWhen(c: Connection, token: Token, key: Option<nat>, nonce: nat, now: int)
    ensures var (next, answer) := Grant(c, token, key, nonce, now);
      && (next.revoked != c.revoked <==>
            && token != c.current && token in c.retired && c.retired[token].key.None? && c.revoked.None?
            && !answer.Tokens?)
      && (next.revoked != c.revoked ==> next == c.(revoked := Some(ForReuse)))
      && (next.current != c.current ==> token == c.current && answer.Tokens? && answer.refresh == next.current)
  {
  }

  /** A new connection works for as long as a refresh token lasts, and its access token for as long as those do. */
  lemma OpenLasts(id: nat, since: int, now: int)
    ensures var c := Open(id, since);
      && (Live(c, now) <==> now - since < REFRESH_TTL) && (now < c.accessExpires <==> now - since < ACCESS_TTL)
      && c.current == Issued(id, 0) && c.retired == map[]
  {
  }

  /** A rotated one too, and it remembers the old token and all others that are younger than a refresh token can get. */
  lemma RotatedLasts(c: Connection, key: Option<nat>, nonce: nat, rotated: int, now: int)
    ensures var next := Rotate(c, key, nonce, rotated);
      && (Live(next, now) <==> c.revoked.None? && now - rotated < REFRESH_TTL)
      && (now < next.accessExpires <==> now - rotated < ACCESS_TTL)
      && c.current in next.retired && next.retired[c.current] == Retirement(key, rotated)
      && forall t :: t != c.current ==>
           && (t in next.retired <==> t in c.retired && rotated - c.retired[t].at <= REFRESH_TTL)
           && (t in next.retired ==> next.retired[t] == c.retired[t])
  {
  }
}
