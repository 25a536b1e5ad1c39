/**
 * Token refresh by any number of CLI processes that share one stored credential.
 *
 * The machine's steps are the atomic actions of `App.refresh`: taking the lock, reading the
 * store, saving, sending, and reading the answer.  Requests travel over a network that may lose,
 * delay and repeat them; a process may stop between any two steps; a save that reports failure
 * may or may not have changed what the next load returns; and users sign in, sign out and revoke
 * connections at any moment without taking the refresh lock.
 */
module RefreshProtocol {
  import opened Basics
  import opened TokenService

  datatype Credentials = Credentials(refresh: Token, requestId: Option<nat>)

  datatype Request = Request(token: Token, id: nat)

  /** Where the holder of the refresh lock is. */
  datatype Pc =
    | Entered(rejected: Token)
    | NeedsId(creds: Credentials, attempt: nat)
    | Ready(creds: Credentials, attempt: nat)
    | Waiting(creds: Credentials, attempt: nat)
    | Answered(creds: Credentials, attempt: nat, response: Response)
    | Storing(creds: Credentials, attempt: nat, expiresIn: nat)

  datatype Session = Session(process: nat, pc: Pc)

  /**
   * `minted[i]` is the token request identity `i` was drawn for.  Identities are random; drawing
   * one is taking the next index.
   */
  datatype State = State(
    now: int,
    connections: map<nat, Connection>,
    store: Option<Credentials>,
    sent: set<Request>,
    minted: seq<Token>,
    lock: Option<Session>,
    nextConnection: nat)

  datatype Outcome = Saved | FailedUnchanged | FailedChanged

  datatype Step =
    | Acquire(process: nat, rejected: Token)
    | Read(stillValid: bool)
    | PersistId(outcome: Outcome)
    | Send
    | Serve(nonce: nat)
    | Stray(request: Request, nonce: nat)
    | TakeAnswer(cleared: bool)
    | StoreTokens(outcome: Outcome)
    | Abandon
    | Redeem
    | StoreLogin(connection: nat, outcome: Outcome)
    | Logout(serverToo: bool, cleared: bool)
    | Revoke(connection: nat)
    | Tick(elapsed: nat)

  function Init(): State {
    State(0, map[], None, {}, [], None, 0)
  }

  function At(s: State, pc: Pc): State
    requires s.lock.Some?
  {
    s.(lock := Some(s.lock.value.(pc := pc)))
  }

  function Unlocked(s: State): State {
    s.(lock := None)
  }

  /** Save `creds` with the given outcome; only a reported success lets the holder go on. */
  function Save(s: State, creds: Credentials, outcome: Outcome): State {
    if outcome.FailedUnchanged? then s else s.(store := Some(creds))
  }

  /** What a login stores: the tokens its device code was redeemed for. */
  function FirstCredentials(c: nat): Credentials {
    Credentials(Issued(c, 0), None)
  }

  /** The service handles one request, whoever still waits for it. */
  function Handle(s: State, q: Request, nonce: nat): (State, Response) {
    var c := ConnectionOf(q.token);
    if c !in s.connections then (s, InvalidGrant)
    else
      var (next, answer) := Grant(s.connections[c], q.token, Some(q.id), nonce, s.now);
      (s.(connections := s.connections[c := next]), answer)
  }

  function RevokeIn(s: State, c: nat): State {
    if c !in s.connections || s.connections[c].revoked.Some? then s
    else s.(connections := s.connections[c := s.connections[c].(revoked := Some(ByUser))])
  }

  /** What the holder does with an answer. */
  function Answer(s: State, creds: Credentials, attempt: nat, response: Response, cleared: bool): State
    requires s.lock.Some?
  {
    match response
    case RequestCompleted => if attempt == 0 then At(s, NeedsId(creds, attempt + 1)) else Unlocked(s)
    case InvalidGrant => Unlocked(if cleared then s.(store := None) else s)
    case Tokens(refresh, expiresIn) => At(s, Storing(Credentials(refresh, None), attempt, expiresIn))
  }

  /** A step that is not possible where the holder stands changes nothing. */
  function Apply(s: State, step: Step): State {
    match step
    case Acquire(p, rejected) =>
      if s.lock.None? then s.(lock := Some(Session(p, Entered(rejected)))) else s
    case Read(stillValid) =>
      if s.lock.None? || !s.lock.value.pc.Entered? then s
      else if s.store.None? then Unlocked(s)
      else
        var creds := s.store.value;
        if creds.refresh != s.lock.value.pc.rejected && stillValid then Unlocked(s)
        else if creds.requestId.None? then At(s, NeedsId(creds, 0))
        else At(s, Ready(creds, 0))
    case PersistId(outcome) =>
      if s.lock.None? || !s.lock.value.pc.NeedsId? then s
      else
        var pc := s.lock.value.pc;
        var creds := pc.creds.(requestId := Some(|s.minted|));
        var saved := Save(s.(minted := s.minted + [creds.refresh]), creds, outcome);
        if outcome.Saved? then At(saved, Ready(creds, pc.attempt)) else Unlocked(saved)
    case Send =>
      if s.lock.None? || !s.lock.value.pc.Ready? || s.lock.value.pc.creds.requestId.None? then s
      else
        var pc := s.lock.value.pc;
        At(s.(sent := s.sent + {Request(pc.creds.refresh, pc.creds.requestId.value)}),
           Waiting(pc.creds, pc.attempt))
    case Serve(nonce) =>
      if s.lock.None? || !s.lock.value.pc.Waiting? || s.lock.value.pc.creds.requestId.None? then s
      else
        var pc := s.lock.value.pc;
        var (next, answer) := Handle(s, Request(pc.creds.refresh, pc.creds.requestId.value), nonce);
        At(next, Answered(pc.creds, pc.attempt, answer))
    case Stray(q, nonce) =>
      if q in s.sent then Handle(s, q, nonce).0 else s
    case TakeAnswer(cleared) =>
      if s.lock.None? || !s.lock.value.pc.Answered? then s
      else Answer(s, s.lock.value.pc.creds, s.lock.value.pc.attempt, s.lock.value.pc.response, cleared)
    case StoreTokens(outcome) =>
      if s.lock.None? || !s.lock.value.pc.Storing? then s
      else
        var pc := s.lock.value.pc;
        var saved := Save(s, pc.creds, outcome);
        if !outcome.Saved? || pc.expiresIn > 0 || pc.attempt >= 2 then Unlocked(saved)
        else At(saved, NeedsId(pc.creds, pc.attempt + 1))
    case Abandon => Unlocked(s)
    case Redeem =>
      var c := s.nextConnection;
      s.(connections := s.connections[c := Open(c, s.now)], nextConnection := c + 1)
    case StoreLogin(c, outcome) =>
      if c in s.connections then Save(s, FirstCredentials(c), outcome) else s
    case Logout(serverToo, cleared) =>
      var t := if serverToo && s.store.Some? then RevokeIn(s, ConnectionOf(s.store.value.refresh)) else s;
      if cleared then t.(store := None) else t
    case Revoke(c) => RevokeIn(s, c)
    case Tick(elapsed) => s.(now := s.now + elapsed)
  }

  function Run(s: State, steps: seq<Step>): State
    decreases |steps|
  {
    if steps == [] then s else Run(Apply(s, steps[0]), steps[1..])
  }

  // ---------------------------------------------------------------- late logins

  /** A request with the first token of a connection has been sent, or the lock holder is about to send one. */
  predicate InUse(s: State, c: nat) {
    || (exists q :: q in s.sent && q.token == Issued(c, 0))
    || (s.lock.Some? && s.lock.value.pc.Ready? && s.lock.value.pc.creds.refresh == Issued(c, 0))
  }

  /**
   * Two login processes may redeem one device code for the same tokens, and either may save them at
   * any later moment.  A save is late when it puts back a first token that is already in use.
   */
  predicate Late(s: State, step: Step) {
    step.StoreLogin? && step.connection in s.connections && !step.outcome.FailedUnchanged? && InUse(s, step.connection)
  }

  /** A sequence of steps without a late login. */
  predicate Timely(s: State, steps: seq<Step>)
    decreases |steps|
  {
    steps == [] || (!Late(s, steps[0]) && Timely(Apply(s, steps[0]), steps[1..]))
  }

  /** No token was sent under two identities, and no connection was revoked for reuse. */
  ghost predicate OneIdentity(s: State) {
    && (forall q, r :: q in s.sent && r in s.sent && q.token == r.token ==> q == r)
    && (forall c :: c in s.connections ==> s.connections[c].revoked != Some(ForReuse))
  }

  /**
   * The answer in hand is not `refresh_request_completed`, and it is `invalid_grant` only for a
   * connection its user revoked or that has expired.
   */
  ghost predicate RefusedDead(s: State) {
    s.lock.Some? && s.lock.value.pc.Answered? ==>
      var pc := s.lock.value.pc;
      var c := ConnectionOf(pc.creds.refresh);
      && !pc.response.RequestCompleted?
      && c in s.connections
      && (pc.response.InvalidGrant? ==>
            s.connections[c].revoked == Some(ByUser) || s.connections[c].refreshExpires <= s.now)
  }

  ghost predicate Safe(s: State) {
    OneIdentity(s) && RefusedDead(s)
  }

  // ---------------------------------------------------------------- the invariant

  /** The token a connection started with. */
  function First(t: Token): Token {
    match t
    case Issued(_, _) => t
    case Successor(p, _) => First(p)
  }

  /** Of this connection, nothing later than `t` was ever sent, and `t` itself only as `id`. */
  ghost predicate NothingLater(sent: set<Request>, t: Token, id: Option<nat>) {
    forall q :: q in sent && ConnectionOf(q.token) == ConnectionOf(t) ==>
      Generation(q.token) < Generation(t) || (q.token == t && id == Some(q.id))
  }

  /** `t` is what the service takes now, or it was just rotated away under the identity kept with it. */
  ghost predicate Linked(connections: map<nat, Connection>, t: Token, id: Option<nat>) {
    && ConnectionOf(t) in connections
    && var current := connections[ConnectionOf(t)].current;
    && (current == t || (id.Some? && current == Successor(t, id.value)))
  }

  ghost predicate Minted(minted: seq<Token>, t: Token, id: nat) {
    id < |minted| && minted[id] == t
  }

  /** Credentials that can always be refreshed while their connection lives. */
  ghost predicate Good(s: State, creds: Credentials) {
    && Linked(s.connections, creds.refresh, creds.requestId)
    && NothingLater(s.sent, creds.refresh, creds.requestId)
    && (creds.requestId.Some? ==> Minted(s.minted, creds.refresh, creds.requestId.value))
  }

  /** The predecessor's row is there as long as a retry with it can matter. */
  ghost predicate ConnectionOk(sent: set<Request>, next: nat, id: nat, c: Connection) {
    && id < next
    && ConnectionOf(c.current) == id
    && First(c.current) == Issued(id, 0)
    && (c.current == Issued(id, 0) || exists q :: q in sent && q.token == Issued(id, 0))
    && c.revoked != Some(ForReuse)
    && (c.current.Successor? ==>
          && c.current.predecessor in c.retired
          && c.retired[c.current.predecessor] == Retirement(Some(c.current.key), c.refreshExpires - REFRESH_TTL))
    && (forall t :: t in c.retired ==>
          && ConnectionOf(t) == id && Generation(t) < Generation(c.current)
          && c.retired[t].key.Some? && Request(t, c.retired[t].key.value) in sent)
  }

  /** The store holds the same token as the lock holder, or belongs to another connection. */
  ghost predicate StoreAgrees(s: State, creds: Credentials) {
    s.store.Some? ==>
      s.store.value == creds || ConnectionOf(s.store.value.refresh) != ConnectionOf(creds.refresh)
  }

  ghost predicate Dead(s: State, t: Token) {
    ConnectionOf(t) in s.connections && !Live(s.connections[ConnectionOf(t)], s.now)
  }

  ghost predicate PcOk(s: State, pc: Pc) {
    match pc
    case Entered(_) => true
    case NeedsId(creds, _) => creds.requestId.None? && Good(s, creds) && StoreAgrees(s, creds)
    case Ready(creds, _) => creds.requestId.Some? && Good(s, creds) && StoreAgrees(s, creds)
    case Waiting(creds, _) =>
      && creds.requestId.Some? && Good(s, creds) && StoreAgrees(s, creds)
      && Request(creds.refresh, creds.requestId.value) in s.sent
    case Answered(creds, _, response) =>
      && creds.requestId.Some? && Good(s, creds) && StoreAgrees(s, creds)
      && Request(creds.refresh, creds.requestId.value) in s.sent
      && (match response
          case RequestCompleted => false
          case InvalidGrant => Dead(s, creds.refresh)
          case Tokens(refresh, _) =>
            && refresh == Successor(creds.refresh, creds.requestId.value)
            && s.connections[ConnectionOf(refresh)].current == refresh)
    case Storing(creds, _, _) =>
      && creds.requestId.None? && Good(s, creds)
      && s.connections[ConnectionOf(creds.refresh)].current == creds.refresh
  }

  ghost predicate ServiceOk(connections: map<nat, Connection>, sent: set<Request>, minted: seq<Token>, next: nat) {
    && (forall c :: c in connections ==> ConnectionOk(sent, next, c, connections[c]))
    && (forall q :: q in sent ==>
          Minted(minted, q.token, q.id) && ConnectionOf(q.token) in connections
          && First(q.token) == Issued(ConnectionOf(q.token), 0)
          && Generation(q.token) <= Generation(connections[ConnectionOf(q.token)].current))
    && (forall q, r :: q in sent && r in sent && q.token == r.token ==> q.id == r.id)
  }

  ghost predicate Inv(s: State) {
    && ServiceOk(s.connections, s.sent, s.minted, s.nextConnection)
    && (s.store.Some? ==> Good(s, s.store.value))
    && (s.lock.Some? ==> PcOk(s, s.lock.value.pc))
  }

  // ---------------------------------------------------------------- one request at the service

  /** A request from `sent` rotates the connection, or leaves it as it is. */
  lemma GrantCases(s: State, q: Request, nonce: nat)
    requires Inv(s) && q in s.sent
    ensures var c := ConnectionOf(q.token);
            var conn := s.connections[c];
            var (next, answer) := Grant(conn, q.token, Some(q.id), nonce, s.now);
            if q.token == conn.current && Live(conn, s.now) then
              next == Rotate(conn, Some(q.id), nonce, s.now) && answer == Tokens(Successor(q.token, q.id), ACCESS_TTL / 1000)
            else
              && next == conn
              && (answer.InvalidGrant? || (answer.Tokens? && answer.refresh == conn.current == Successor(q.token, q.id)))
              && (answer.InvalidGrant? && (conn.current == q.token || conn.current == Successor(q.token, q.id)) ==>
                    !Live(conn, s.now))
  {
    var conn := s.connections[ConnectionOf(q.token)];
    assert ConnectionOk(s.sent, s.nextConnection, ConnectionOf(q.token), conn);
    if KeyUsed(conn, q.id) {
      var t :| t in conn.retired && conn.retired[t].key == Some(q.id);
      assert Request(t, q.id) in s.sent;
      assert t == q.token;
    }
  }

  lemma RotationKeepsConnection(s: State, q: Request, nonce: nat)
    requires Inv(s) && q in s.sent
    requires q.token == s.connections[ConnectionOf(q.token)].current
    ensures ConnectionOk(s.sent, s.nextConnection, ConnectionOf(q.token),
                         Rotate(s.connections[ConnectionOf(q.token)], Some(q.id), nonce, s.now))
  {
  }

  /** Rotating its connection keeps the service in order. */
  lemma RotateKeepsService(s: State, q: Request, nonce: nat)
    requires Inv(s) && q in s.sent
    requires q.token == s.connections[ConnectionOf(q.token)].current
    ensures var c := ConnectionOf(q.token);
            ServiceOk(s.connections[c := Rotate(s.connections[c], Some(q.id), nonce, s.now)], s.sent, s.minted, s.nextConnection)
  {
    RotationKeepsConnection(s, q, nonce);
    hide ConnectionOk, Minted, PcOk, Good;
    var c := ConnectionOf(q.token);
    var next := Rotate(s.connections[c], Some(q.id), nonce, s.now);
    assert Generation(next.current) == Generation(q.token) + 1;
  }

  /** Credentials nothing later than which was sent are still good after a rotation. */
  lemma RotateKeepsGood(s: State, s': State, q: Request, nonce: nat, creds: Credentials)
    requires q in s.sent && ConnectionOf(q.token) in s.connections
    requires q.token == s.connections[ConnectionOf(q.token)].current
    requires var c := ConnectionOf(q.token);
      s' == s.(connections := s.connections[c := Rotate(s.connections[c], Some(q.id), nonce, s.now)])
    requires Good(s, creds)
    ensures Good(s', creds)
    ensures ConnectionOf(creds.refresh) == ConnectionOf(q.token) ==>
      q.token == creds.refresh && creds.requestId == Some(q.id)
  {
    hide Minted;
  }

  /** Whatever request the service handles, in whatever order, the invariant stays. */
  lemma HandleKeeps(s: State, q: Request, nonce: nat)
    requires Inv(s) && q in s.sent
    ensures Inv(Handle(s, q, nonce).0)
  {
    GrantCases(s, q, nonce);
    var c := ConnectionOf(q.token);
    var conn := s.connections[c];
    var s' := Handle(s, q, nonce).0;
    if q.token == conn.current && Live(conn, s.now) {
      RotateKeepsService(s, q, nonce);
      if s.store.Some? {
        RotateKeepsGood(s, s', q, nonce, s.store.value);
      }
      if s.lock.Some? && !s.lock.value.pc.Entered? {
        RotateKeepsGood(s, s', q, nonce, s.lock.value.pc.creds);
        RotateKeepsPc(s, s', q, nonce);
      }
    } else {
      assert s' == s;
    }
  }

  lemma RotateKeepsPc(s: State, s': State, q: Request, nonce: nat)
    requires Inv(s) && q in s.sent && ConnectionOf(q.token) in s.connections
    requires var conn := s.connections[ConnectionOf(q.token)]; q.token == conn.current && Live(conn, s.now)
    requires var c := ConnectionOf(q.token);
      s' == s.(connections := s.connections[c := Rotate(s.connections[c], Some(q.id), nonce, s.now)])
    requires s.lock.Some? && !s.lock.value.pc.Entered? && Good(s', s.lock.value.pc.creds)
    requires ConnectionOf(s.lock.value.pc.creds.refresh) == ConnectionOf(q.token) ==>
      q.token == s.lock.value.pc.creds.refresh && s.lock.value.pc.creds.requestId == Some(q.id)
    ensures PcOk(s', s.lock.value.pc)
  {
    hide ServiceOk, Good;
  }

  // ---------------------------------------------------------------- every step, every run

  lemma ServeKeeps(s: State, nonce: nat)
    requires Inv(s)
    ensures Inv(Apply(s, Serve(nonce)))
  {
    if s.lock.Some? && s.lock.value.pc.Waiting? {
      var creds := s.lock.value.pc.creds;
      var q := Request(creds.refresh, creds.requestId.value);
      GrantCases(s, q, nonce);
      HandleKeeps(s, q, nonce);
    }
  }

  /** Sending the only identity a token has makes nothing later than it. */
  lemma SendingIsNothingLater(s: State, creds: Credentials, t: Token, id: Option<nat>)
    requires creds.requestId.Some? && NothingLater(s.sent, creds.refresh, creds.requestId)
    requires NothingLater(s.sent, t, id)
    requires (t == creds.refresh && id == creds.requestId) || ConnectionOf(t) != ConnectionOf(creds.refresh)
    ensures NothingLater(s.sent + {Request(creds.refresh, creds.requestId.value)}, t, id)
  {
  }

  lemma MoreSentIsOk(sent: set<Request>, q: Request, next: nat, id: nat, c: Connection)
    requires ConnectionOk(sent, next, id, c)
    ensures ConnectionOk(sent + {q}, next, id, c)
  {
  }

  lemma SendKeepsService(s: State, q: Request)
    requires ServiceOk(s.connections, s.sent, s.minted, s.nextConnection)
    requires Linked(s.connections, q.token, Some(q.id)) && Minted(s.minted, q.token, q.id)
    requires NothingLater(s.sent, q.token, Some(q.id))
    ensures ServiceOk(s.connections, s.sent + {q}, s.minted, s.nextConnection)
  {
    var conn := s.connections[ConnectionOf(q.token)];
    assert First(q.token) == Issued(ConnectionOf(q.token), 0) && Generation(q.token) <= Generation(conn.current) by {
      assert ConnectionOk(s.sent, s.nextConnection, ConnectionOf(q.token), conn);
    }
    hide ConnectionOk, Linked, Minted;
    forall c | c in s.connections ensures ConnectionOk(s.sent + {q}, s.nextConnection, c, s.connections[c]) {
      MoreSentIsOk(s.sent, q, s.nextConnection, c, s.connections[c]);
    }
  }

  lemma SendKeeps(s: State)
    requires Inv(s)
    ensures Inv(Apply(s, Send))
  {
    hide ServiceOk, Linked, NothingLater, Minted;
    if s.lock.Some? && s.lock.value.pc.Ready? {
      var creds := s.lock.value.pc.creds;
      SendKeepsService(s, Request(creds.refresh, creds.requestId.value));
      SendingIsNothingLater(s, creds, creds.refresh, creds.requestId);
      if s.store.Some? {
        SendingIsNothingLater(s, creds, s.store.value.refresh, s.store.value.requestId);
      }
    }
  }

  lemma PersistIdKeeps(s: State, outcome: Outcome)
    requires Inv(s)
    ensures Inv(Apply(s, PersistId(outcome)))
  {
    if s.lock.Some? && s.lock.value.pc.NeedsId? {
      var s' := Apply(s, PersistId(outcome));
      assert ServiceOk(s'.connections, s'.sent, s'.minted, s'.nextConnection);
    }
  }

  lemma TakeAnswerKeeps(s: State, cleared: bool)
    requires Inv(s)
    ensures Inv(Apply(s, TakeAnswer(cleared)))
  {
    if s.lock.Some? && s.lock.value.pc.Answered? {
      var pc := s.lock.value.pc;
      if pc.response.Tokens? {
        var next := Credentials(pc.response.refresh, None);
        assert Good(s, next);
      }
    }
  }

  lemma StoreTokensKeeps(s: State, outcome: Outcome)
    requires Inv(s)
    ensures Inv(Apply(s, StoreTokens(outcome)))
  {
  }

  lemma RedeemKeepsService(s: State)
    requires ServiceOk(s.connections, s.sent, s.minted, s.nextConnection)
    ensures var c := s.nextConnection;
      && c !in s.connections
      && ServiceOk(s.connections[c := Open(c, s.now)], s.sent, s.minted, c + 1)
  {
    var c := s.nextConnection;
    assert c in s.connections ==> ConnectionOk(s.sent, c, c, s.connections[c]);
    forall d | d in s.connections ensures ConnectionOk(s.sent, c + 1, d, s.connections[d]) {
      assert ConnectionOk(s.sent, c, d, s.connections[d]);
    }
  }

  lemma RedeemKeeps(s: State)
    requires Inv(s)
    ensures Inv(Apply(s, Redeem))
  {
    hide ServiceOk, NothingLater, Minted, Live;
    RedeemKeepsService(s);
  }

  /** A first token that was never sent is still the current one, and nothing of its connection was sent. */
  lemma UnusedIsCurrent(s: State, c: nat)
    requires ServiceOk(s.connections, s.sent, s.minted, s.nextConnection) && c in s.connections
    requires forall q :: q in s.sent ==> q.token != Issued(c, 0)
    ensures s.connections[c].current == Issued(c, 0)
    ensures forall q :: q in s.sent ==> ConnectionOf(q.token) != c
  {
    assert ConnectionOk(s.sent, s.nextConnection, c, s.connections[c]);
    forall q | q in s.sent ensures ConnectionOf(q.token) != c {
      assert Generation(q.token) == 0 ==> First(q.token) == q.token;
    }
  }

  /** Storing a login is harmless, beside a running refresh too, while its token is not in use. */
  lemma StoreLoginKeeps(s: State, c: nat, outcome: Outcome)
    requires Inv(s) && !Late(s, StoreLogin(c, outcome))
    ensures Inv(Apply(s, StoreLogin(c, outcome)))
  {
    hide ServiceOk, Minted, Dead;
    if c in s.connections && !outcome.FailedUnchanged? {
      UnusedIsCurrent(s, c);
      var s' := s.(store := Some(FirstCredentials(c)));
      assert Good(s', FirstCredentials(c));
      DeadAlike(s, s');
    }
  }

  lemma RevokeKeepsService(s: State, c: nat)
    requires ServiceOk(s.connections, s.sent, s.minted, s.nextConnection)
    ensures ServiceOk(RevokeIn(s, c).connections, s.sent, s.minted, s.nextConnection)
  {
    hide Minted;
    if c in s.connections && s.connections[c].revoked.None? {
      assert ConnectionOk(s.sent, s.nextConnection, c, s.connections[c]);
      assert ConnectionOk(s.sent, s.nextConnection, c, s.connections[c].(revoked := Some(ByUser)));
      hide ConnectionOk;
    }
  }

  lemma RevokeKeeps(s: State, c: nat)
    requires Inv(s)
    ensures Inv(RevokeIn(s, c))
  {
    hide ServiceOk, NothingLater, Minted;
    RevokeKeepsService(s, c);
  }

  lemma ClearKeeps(s: State)
    requires Inv(s)
    ensures Inv(s.(store := None))
  {
    hide ServiceOk, Linked, NothingLater, Minted, Dead;
    var s' := s.(store := None);
    if s.lock.Some? {
      DeadAlike(s, s');
    }
  }

  lemma DeadAlike(s: State, s': State)
    requires s'.connections == s.connections && s.now <= s'.now
    ensures forall t :: Dead(s, t) ==> Dead(s', t)
  {
  }

  lemma LogoutKeeps(s: State, serverToo: bool, cleared: bool)
    requires Inv(s)
    ensures Inv(Apply(s, Logout(serverToo, cleared)))
  {
    hide Inv, RevokeIn;
    var t := s;
    if serverToo && s.store.Some? {
      RevokeKeeps(s, ConnectionOf(s.store.value.refresh));
      t := RevokeIn(s, ConnectionOf(s.store.value.refresh));
    }
    if cleared {
      ClearKeeps(t);
    }
  }

  /** Signing out leaves nothing stored, if that could be cleared, and a connection it told the service about dead. */
  lemma LogoutSignsOut(s: State, serverToo: bool, cleared: bool)
    ensures var s' := Apply(s, Logout(serverToo, cleared));
      && s'.store == (if cleared then None else s.store)
      && (serverToo && s.store.Some? && ConnectionOf(s.store.value.refresh) in s.connections ==>
            s'.connections[ConnectionOf(s.store.value.refresh)].revoked.Some?)
      && (!serverToo ==> s'.connections == s.connections)
  {
  }

  /** A revoked connection is dead, keeps the reason it was first revoked for, and no other is touched. */
  lemma RevokedIsDead(s: State, c: nat)
    requires c in s.connections
    ensures var s' := Apply(s, Revoke(c));
      && s'.connections.Keys == s.connections.Keys
      && !Live(s'.connections[c], s'.now)
      && s'.connections[c].revoked
         == (if s.connections[c].revoked.None? then Some(ByUser) else s.connections[c].revoked)
      && forall d :: d in s.connections && d != c ==> s'.connections[d] == s.connections[d]
  {
  }

  /** While one process has the lock no step gives it to another: it must have been let go of first. */
  lemma HolderStays(s: State, step: Step)
    requires s.lock.Some?
    ensures Apply(s, step).lock.Some? ==> Apply(s, step).lock.value.process == s.lock.value.process
  {
  }

  /** The clock goes on by what has passed and nothing else happens meanwhile. */
  lemma TimeOnlyPasses(s: State, elapsed: nat)
    ensures Apply(s, Tick(elapsed)).now - s.now == elapsed
    ensures Apply(s, Tick(elapsed)) == s.(now := Apply(s, Tick(elapsed)).now)
  {
  }

  /** A token of no connection the service knows of is refused. */
  lemma UnknownIsRefused(s: State, q: Request, nonce: nat)
    requires ConnectionOf(q.token) !in s.connections
    ensures Handle(s, q, nonce).1.InvalidGrant? && Handle(s, q, nonce).0 == s
  {
  }

  /** A request that was ever sent can reach the service at any time and any number of times, and nothing else can. */
  lemma SentMayArrive(s: State, q: Request, nonce: nat)
    ensures Apply(s, Stray(q, nonce)) == if q in s.sent then Handle(s, q, nonce).0 else s
    ensures Apply(s, Stray(q, nonce)).sent == s.sent && Apply(s, Stray(q, nonce)).store == s.store
  {
  }

  /** Giving up the lock, taking it, or going on after reading the store, as time goes by. */
  lemma MoveKeeps(s: State, s': State)
    requires Inv(s)
    requires s.now <= s'.now && s' == s.(now := s'.now, lock := s'.lock)
    requires s'.lock.Some? ==>
      || s'.lock == s.lock || s'.lock.value.pc.Entered?
      || (s.store.Some?
          && s'.lock.value.pc
             == if s.store.value.requestId.None? then NeedsId(s.store.value, 0) else Ready(s.store.value, 0))
    ensures Inv(s')
  {
    hide ServiceOk, Linked, NothingLater, Minted, Dead;
    DeadAlike(s, s');
  }

  lemma LockStepsKeep(s: State, step: Step)
    requires Inv(s)
    requires step.Acquire? || step.Read? || step.Abandon? || step.Tick?
    ensures Inv(Apply(s, step))
  {
    hide Inv;
    MoveKeeps(s, Apply(s, step));
  }

  lemma ApplyKeeps(s: State, step: Step)
    requires Inv(s) && !Late(s, step)
    ensures Inv(Apply(s, step))
  {
    match step
    case PersistId(o) => PersistIdKeeps(s, o);
    case Send => SendKeeps(s);
    case Serve(n) => ServeKeeps(s, n);
    case Stray(q, n) => if q in s.sent { HandleKeeps(s, q, n); }
    case TakeAnswer(c) => TakeAnswerKeeps(s, c);
    case StoreTokens(o) => StoreTokensKeeps(s, o);
    case Redeem => RedeemKeeps(s);
    case StoreLogin(c, o) => StoreLoginKeeps(s, c, o);
    case Revoke(c) => RevokeKeeps(s, c);
    case Logout(server, cleared) => LogoutKeeps(s, server, cleared);
    case _ => LockStepsKeep(s, step);
  }

  lemma {:induction false} RunKeeps(s: State, steps: seq<Step>)
    requires Inv(s) && Timely(s, steps)
    ensures Inv(Run(s, steps))
    decreases |steps|
  {
    if steps != [] {
      ApplyKeeps(s, steps[0]);
      RunKeeps(Apply(s, steps[0]), steps[1..]);
    }
  }

  /** Every state reached without a late login satisfies the invariant. */
  lemma EveryRun(steps: seq<Step>)
    requires Timely(Init(), steps)
    ensures Inv(Run(Init(), steps))
  {
    RunKeeps(Init(), steps);
  }

  lemma InvIsSafe(s: State)
    requires Inv(s)
    ensures Safe(s)
  {
    hide NothingLater, Minted, StoreAgrees;
    forall c | c in s.connections ensures s.connections[c].revoked != Some(ForReuse) {
      assert ConnectionOk(s.sent, s.nextConnection, c, s.connections[c]);
    }
    if s.lock.Some? && s.lock.value.pc.Answered? {
      var c := ConnectionOf(s.lock.value.pc.creds.refresh);
      assert s.connections[c].revoked.Some? ==> s.connections[c].revoked.value.ByUser?;
    }
  }

  /** Without late logins no refresh token is ever sent under two identities, and no connection is revoked for reuse. */
  lemma NeverASecondIdentity(steps: seq<Step>)
    requires Timely(Init(), steps)
    ensures OneIdentity(Run(Init(), steps))
  {
    EveryRun(steps);
    InvIsSafe(Run(Init(), steps));
  }

  /** Without late logins a refresh never signs a working machine out. */
  lemma RefusedOnlyWhenDead(steps: seq<Step>)
    requires Timely(Init(), steps)
    ensures RefusedDead(Run(Init(), steps))
  {
    EveryRun(steps);
    InvIsSafe(Run(Init(), steps));
  }

  /** The request a refresh that starts from `creds` sends first. */
  function FirstRequest(s: State, creds: Credentials): Request {
    Request(creds.refresh, if creds.requestId.Some? then creds.requestId.value else |s.minted|)
  }

  /** Whatever was lost before, what the store holds gets tokens while its connection lives. */
  lemma StoredIsRefreshable(s: State, nonce: nat)
    requires Inv(s) && s.store.Some?
    requires Live(s.connections[ConnectionOf(s.store.value.refresh)], s.now)
    ensures var q := FirstRequest(s, s.store.value);
            var (next, answer) := Handle(s, q, nonce);
            && answer.Tokens? && answer.refresh == Successor(q.token, q.id)
            && next.connections[ConnectionOf(q.token)].current == answer.refresh
            && (s.connections[ConnectionOf(q.token)].current == q.token ==> answer.expiresIn == ACCESS_TTL / 1000)
  {
    var q := FirstRequest(s, s.store.value);
    var c := s.connections[ConnectionOf(q.token)];
    assert ConnectionOk(s.sent, s.nextConnection, ConnectionOf(q.token), c);
    if KeyUsed(c, q.id) {
      var t :| t in c.retired && c.retired[t].key == Some(q.id);
      assert Request(t, q.id) in s.sent;
      assert Minted(s.minted, t, q.id);
      assert t == q.token;
    }
  }

  /** Without late logins the stored credential of a live connection can always be refreshed. */
  lemma AlwaysRecoverable(steps: seq<Step>, nonce: nat)
    requires Timely(Init(), steps)
    ensures var s := Run(Init(), steps);
            s.store.Some? ==>
              && ConnectionOf(s.store.value.refresh) in s.connections
              && (Live(s.connections[ConnectionOf(s.store.value.refresh)], s.now) ==>
                    Handle(s, FirstRequest(s, s.store.value), nonce).1.Tokens?)
  {
    EveryRun(steps);
    var s := Run(Init(), steps);
    if s.store.Some? && Live(s.connections[ConnectionOf(s.store.value.refresh)], s.now) {
      StoredIsRefreshable(s, nonce);
    }
  }

  // ---------------------------------------------------------------- what a late login does

  lemma {:induction false} RunAppend(s: State, a: seq<Step>, step: Step)
    ensures Run(s, a + [step]) == Apply(Run(s, a), step)
    ensures Timely(s, a + [step]) <==> Timely(s, a) && !Late(Run(s, a), step)
    decreases |a|
  {
    hide Apply, Late;
    if a == [] {
      assert a + [step] == [step];
      assert Run(Apply(s, step), []) == Apply(s, step);
    } else {
      assert (a + [step])[1..] == a[1..] + [step];
      RunAppend(Apply(s, a[0]), a[1..], step);
    }
  }

  /** One more step of a run from `start` that has reached `s`. */
  lemma Then(start: State, s: State, t: seq<Step>, step: Step) returns (s': State, t': seq<Step>)
    requires s == Run(start, t) && Timely(start, t) && !Late(s, step)
    ensures s' == Apply(s, step) && s' == Run(start, t') && Timely(start, t')
  {
    t' := t + [step];
    RunAppend(start, t, step);
    s' := Apply(s, step);
  }

  /** From a stored credential without an identity to a request under a new one. */
  lemma RefreshesUnderNewIdentity(start: State, s: State, t: seq<Step>) returns (s': State, t': seq<Step>)
    requires s == Run(start, t) && Timely(start, t) && s.store.Some? && s.store.value.requestId.None?
    ensures s' == Run(start, t') && Timely(start, t')
    ensures s'.sent == s.sent + {Request(s.store.value.refresh, |s.minted|)}
    ensures s' == s.(minted := s.minted + [s.store.value.refresh], store := s'.store, sent := s'.sent, lock := s'.lock)
    ensures s'.lock == Some(Session(0, Waiting(s.store.value.(requestId := Some(|s.minted|)), 0)))
  {
    hide Run, Timely;
    s', t' := Then(start, s, t, Abandon);
    s', t' := Then(start, s', t', Acquire(0, s.store.value.refresh));
    s', t' := Then(start, s', t', Read(false));
    s', t' := Then(start, s', t', PersistId(Saved));
    s', t' := Then(start, s', t', Send);
  }

  /** A login that puts back a token in use lets the next refresh send it under a second identity. */
  lemma LateLoginBreaksIt(s: State, c: nat) returns (more: seq<Step>)
    requires Inv(s) && c in s.connections && InUse(s, c)
    ensures var after := Apply(s, StoreLogin(c, Saved)); Timely(after, more) && !OneIdentity(Run(after, more))
  {
    hide Run, Timely, Linked, NothingLater, StoreAgrees, ConnectionOk;
    var t := Issued(c, 0);
    var after := Apply(s, StoreLogin(c, Saved));
    var s', q;
    s', more := after, [];
    assert s' == Run(after, more) && Timely(after, more) by { NoSteps(after); }
    if p :| p in s.sent && p.token == t {
      q := p;
    } else {
      q := Request(t, s.lock.value.pc.creds.requestId.value);
      s', more := Then(after, s', more, Send);
    }
    assert q in s'.sent && q.token == t && Minted(s.minted, t, q.id) && s'.minted == s.minted;
    s', more := RefreshesUnderNewIdentity(after, s', more);
    assert Request(t, |s.minted|) in s'.sent && q in s'.sent && q.id < |s.minted|;
  }

  lemma NoSteps(s: State)
    ensures Run(s, []) == s && Timely(s, [])
  {
  }

  /**
   * After a login is stored, everything stays safe in every timely continuation exactly when its token was not
   * in use.
   */
  lemma StoringLoginIsSafeExactlyWhen(steps: seq<Step>, c: nat)
    requires Timely(Init(), steps) && c in Run(Init(), steps).connections
    ensures var s := Run(Init(), steps);
            var after := Apply(s, StoreLogin(c, Saved));
            (forall more :: Timely(after, more) ==> Safe(Run(after, more))) <==> !InUse(s, c)
  {
    hide Run, Timely, Inv, InUse, Safe, Apply;
    var s := Run(Init(), steps);
    var after := Apply(s, StoreLogin(c, Saved));
    EveryRun(steps);
    if InUse(s, c) {
      var more := LateLoginBreaksIt(s, c);
      assert !Safe(Run(after, more)) by { UnsafeIs(Run(after, more)); }
    } else {
      StoreLoginKeeps(s, c, Saved);
      forall more | Timely(after, more) ensures Safe(Run(after, more)) {
        RunKeeps(after, more);
        InvIsSafe(Run(after, more));
      }
    }
  }

  lemma UnsafeIs(s: State)
    requires !OneIdentity(s)
    ensures !Safe(s)
  {
  }

  ghost predicate AlwaysSafe(lateLogins: bool) {
    forall steps :: lateLogins || Timely(Init(), steps) ==> Safe(Run(Init(), steps))
  }

  /** The first tokens of connection 0, refreshed once, and the second login process about to save them again. */
  const REFRESHED := State(
    0,
    map[0 := Connection(Successor(Issued(0, 0), 0), ACCESS_TTL, REFRESH_TTL, None, map[Issued(0, 0) := Retirement(Some(0), 0)])],
    Some(Credentials(Successor(Issued(0, 0), 0), None)),
    {Request(Issued(0, 0), 0)}, [Issued(0, 0)], None, 1)

  lemma FirstRefresh() returns (t: seq<Step>)
    ensures Timely(Init(), t) && Run(Init(), t) == REFRESHED
  {
    hide Run, Timely;
    var s := Init();
    t := [];
    NoSteps(Init());
    s, t := Then(Init(), s, t, Redeem);
    s, t := Then(Init(), s, t, StoreLogin(0, Saved));
    s, t := RefreshesUnderNewIdentity(Init(), s, t);
    s, t := Then(Init(), s, t, Serve(0));
    s, t := Then(Init(), s, t, TakeAnswer(false));
    s, t := Then(Init(), s, t, StoreTokens(Saved));
    assert s.connections[0].retired == REFRESHED.connections[0].retired;
    assert s.connections.Keys == {0};
  }

  /**
   * The second save: the retired token goes out under a second identity, and the service refuses it on a live
   * connection.
   */
  lemma LateLoginWitness() returns (t: seq<Step>)
    ensures !OneIdentity(Run(Init(), t)) && !RefusedDead(Run(Init(), t))
  {
    t := FirstRefresh();
    var again := Apply(REFRESHED, StoreLogin(0, Saved));
    RunAppend(Init(), t, StoreLogin(0, Saved));
    NoSteps(again);
    var s, more := RefreshesUnderNewIdentity(again, again, []);
    s, more := Then(again, s, more, Serve(0));
    assert Request(Issued(0, 0), 0) in s.sent && Request(Issued(0, 0), 1) in s.sent;
    assert s.lock.value.pc.response.InvalidGrant?;
    RunsOn(Init(), t + [StoreLogin(0, Saved)], more);
    t := t + [StoreLogin(0, Saved)] + more;
  }

  lemma {:induction false} RunsOn(s: State, a: seq<Step>, b: seq<Step>)
    ensures Run(s, a + b) == Run(Run(s, a), b)
    decreases |a|
  {
    if a == [] {
      assert a + b == b;
    } else {
      assert (a + b)[1..] == a[1..] + b;
      RunsOn(Apply(s, a[0]), a[1..], b);
    }
  }

  /** Both properties hold in every run if and only if no login puts back a first token that is already in use. */
  lemma SafeExactlyWhenTimely(lateLogins: bool)
    ensures AlwaysSafe(lateLogins) <==> !lateLogins
  {
    hide Run, Timely, Inv, OneIdentity, RefusedDead;
    if lateLogins {
      var t := LateLoginWitness();
      assert !Safe(Run(Init(), t));
    } else {
      forall steps | Timely(Init(), steps) ensures Safe(Run(Init(), steps)) {
        EveryRun(steps);
        InvIsSafe(Run(Init(), steps));
      }
    }
  }
}
