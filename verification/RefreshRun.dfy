/** One call of `App.refresh`, as the loop it is, over the steps of the protocol. */
module RefreshRun {
  import opened Basics
  import opened TokenService
  import opened RefreshProtocol

  /** What the world does to one round of the loop. */
  datatype Weather = Weather(delivered: bool, answered: bool, idSave: Outcome, tokenSave: Outcome, cleared: bool,
      nonce: nat)

  datatype Result = Refreshed(token: Token) | AuthRequired | Unavailable | Unwritable

  predicate Fine(w: Weather) {
    w.delivered && w.answered && w.idSave.Saved? && w.tokenSave.Saved?
  }

  ghost predicate LiveToken(s: State, t: Token) {
    ConnectionOf(t) in s.connections && Live(s.connections[ConnectionOf(t)], s.now)
  }

  ghost predicate IsCurrent(s: State, t: Token) {
    ConnectionOf(t) in s.connections && s.connections[ConnectionOf(t)].current == t
  }

  /** The store holds the current token of a connection whose access token still works. */
  ghost predicate Settled(s: State, t: Token) {
    && s.store == Some(Credentials(t, None))
    && IsCurrent(s, t) && LiveToken(s, t)
    && s.now < s.connections[ConnectionOf(t)].accessExpires
  }

  /** The token was rotated away before, and what it was rotated for has less than a second left. */
  ghost predicate Lapsed(s: State, t: Token) {
    !IsCurrent(s, t) && ConnectionOf(t) in s.connections
      && s.connections[ConnectionOf(t)].accessExpires - s.now < 1000
  }

  /** The lock holder stands before the request of the given round. */
  ghost predicate Sending(s: State, attempt: nat) {
    && s.lock.Some? && s.lock.value.pc.Ready? && s.lock.value.pc.attempt == attempt
    && s.lock.value.pc.creds.requestId.Some?
  }

  /** In any reachable state, an answered request of a live connection brings the next tokens. */
  lemma AnsweredWithTokens(trace: seq<Step>, s: State, attempt: nat, nonce: nat)
    requires s == Run(Init(), trace) && Timely(Init(), trace) && Sending(s, attempt)
    requires s.store == Some(s.lock.value.pc.creds) && LiveToken(s, s.store.value.refresh)
    ensures var t := s.store.value.refresh;
            var s' := Apply(Apply(s, Send), Serve(nonce));
            && s'.lock.Some? && s'.lock.value.pc.Answered? && s'.lock.value.pc.response.Tokens?
            && var r := s'.lock.value.pc.response;
            && r.refresh == Successor(t, s.store.value.requestId.value)
            && IsCurrent(s', r.refresh) && LiveToken(s', r.refresh)
            && (r.expiresIn > 0 ==> s'.now < s'.connections[ConnectionOf(t)].accessExpires)
            && (r.expiresIn == 0 <==> Lapsed(s, t))
  {
    hide Inv, Grant, Live, Run, Timely;
    EveryRun(trace);
    ApplyKeeps(s, Send);
    var q := FirstRequest(s, s.store.value);
    var sending := Apply(s, Send);
    StoredIsRefreshable(sending, nonce);
    assert !IsCurrent(s, q.token) ==> sending.connections[ConnectionOf(q.token)].current != q.token;
    TokensAreCurrent(sending.connections[ConnectionOf(q.token)], q.token, Some(q.id), nonce, sending.now);
  }

  /** In any reachable state, an answered request of a dead connection is refused. */
  lemma DeadIsRefused(trace: seq<Step>, s: State, attempt: nat, nonce: nat)
    requires s == Run(Init(), trace) && Timely(Init(), trace) && Sending(s, attempt)
    requires !LiveToken(s, s.lock.value.pc.creds.refresh)
    ensures var s' := Apply(Apply(s, Send), Serve(nonce));
            s'.lock.Some? && s'.lock.value.pc == Answered(s.lock.value.pc.creds, attempt, InvalidGrant)
  {
    hide Run, Timely;
    EveryRun(trace);
    var creds := s.lock.value.pc.creds;
    assert PcOk(s, s.lock.value.pc);
    assert Linked(s.connections, creds.refresh, creds.requestId);
    var c := s.connections[ConnectionOf(creds.refresh)];
    assert ConnectionOk(s.sent, s.nextConnection, ConnectionOf(creds.refresh), c);
    DeadIsInvalid(c, creds.refresh, creds.requestId, nonce, s.now);
  }

  lemma DeadIsInvalid(c: Connection, token: Token, key: Option<nat>, nonce: nat, now: int)
    requires !Live(c, now)
    ensures Grant(c, token, key, nonce, now).1.InvalidGrant?
  {
  }

  /** A request must be sent: something is stored, and it has not been replaced by a token that still works. */
  predicate MustSend(store: Option<Credentials>, rejected: Token, stillValid: bool) {
    store.Some? && !(store.value.refresh != rejected && stillValid)
  }

  /** What keeps a round from getting an answer. */
  function Trouble(needsId: bool, w: Weather): Option<Result> {
    if needsId && !w.idSave.Saved? then Some(Unwritable)
    else if !(w.delivered && w.answered) then Some(Unavailable)
    else None
  }

  /** The identity the first request goes out under. */
  function FirstId(s: State): nat
    requires s.store.Some?
  {
    if s.store.value.requestId.Some? then s.store.value.requestId.value else |s.minted|
  }

  /** The identity of a second request. */
  function SecondId(s: State): nat
    requires s.store.Some?
  {
    if s.store.value.requestId.Some? then |s.minted| else |s.minted| + 1
  }

  /** The token a refresh brings that has nothing to repeat. */
  function Next(s: State): Token
    requires s.store.Some?
  {
    Successor(s.store.value.refresh, FirstId(s))
  }

  /**
   * What a call that must send returns: one round, or two if the first only repeats an answer that has run out by
   * now; and there is never a third.
   */
  ghost function Expected(s: State, weather: seq<Weather>): Result
    requires s.store.Some? && |weather| == 3
  {
    var creds := s.store.value;
    var first, second := Trouble(creds.requestId.None?, weather[0]), Trouble(true, weather[1]);
    if first.Some? then first.value
    else if !LiveToken(s, creds.refresh) then AuthRequired
    else if !weather[0].tokenSave.Saved? then Unwritable
    else if !Lapsed(s, creds.refresh) then Refreshed(Next(s))
    else if second.Some? then second.value
    else if !weather[1].tokenSave.Saved? then Unwritable
    else Refreshed(Successor(Next(s), SecondId(s)))
  }

  /** How far a call that began in `from` has come when it is about to send for the given round. */
  ghost predicate StandsAt(from: State, weather: seq<Weather>, s: State, attempt: nat)
    requires |weather| == 3
  {
    && from.store.Some? && s.now == from.now
    && (from.store.value.requestId.None? ==> weather[0].idSave.Saved?)
    && (if attempt == 0 then
          && s.connections == from.connections && |s.minted| == SecondId(from)
          && s.store == Some(Credentials(from.store.value.refresh, Some(FirstId(from))))
        else
          && weather[0].delivered && weather[0].answered && weather[0].tokenSave.Saved?
          && LiveToken(from, from.store.value.refresh) && Lapsed(from, from.store.value.refresh)
          && weather[1].idSave.Saved?
          && s.store == Some(Credentials(Next(from), Some(SecondId(from))))
          && IsCurrent(s, Next(from)) && LiveToken(s, Next(from)))
  }

  class App {
    var s: State
    /** The steps taken so far, by this and every other process. */
    ghost var trace: seq<Step>

    ghost predicate Valid()
      reads this
    {
      s == Run(Init(), trace) && Timely(Init(), trace)
    }

    constructor ()
      ensures Valid() && s == Init()
    {
      s := Init();
      trace := [];
    }

    method Take(step: Step)
      requires Valid() && !Late(s, step)
      modifies this
      ensures Valid() && s == Apply(old(s), step)
    {
      RunAppend(Init(), trace, step);
      s := Apply(s, step);
      trace := trace + [step];
    }

    /** Draw an identity, save it with the credentials, and only then go on. */
    method PersistRefreshRequestId(attempt: nat, outcome: Outcome) returns (ok: bool)
      requires Valid() && s.lock.Some? && s.lock.value.pc.NeedsId? && s.lock.value.pc.attempt == attempt
      modifies this
      ensures Valid() && ok == outcome.Saved?
      ensures ok ==> Sending(s, attempt) && s.store == Some(s.lock.value.pc.creds)
                     && s.store.value == Credentials(old(s.lock).value.pc.creds.refresh, Some(|old(s).minted|))
      ensures !ok ==> s.lock.None?
      ensures s.sent == old(s.sent) && s.connections == old(s.connections) && s.now == old(s.now)
      ensures |s.minted| == |old(s).minted| + 1
    {
      Take(PersistId(outcome));
      ok := outcome.Saved?;
    }

    /** One request; None when it or its answer is lost. */
    method PostRefresh(attempt: nat, w: Weather) returns (response: Option<Response>)
      requires Valid() && Sending(s, attempt)
      modifies this
      ensures Valid() && s.store == old(s.store) && s.now == old(s.now) && s.minted == old(s.minted)
      ensures response.Some? <==> w.delivered && w.answered
      ensures response.None? ==> s.lock.None?
      ensures response.Some? ==>
                s.lock.Some? && s.lock.value.pc == Answered(old(s.lock).value.pc.creds, attempt, response.value)
      ensures response.Some? && !LiveToken(old(s), old(s.lock).value.pc.creds.refresh) ==> response.value.InvalidGrant?
      ensures response.Some? && old(s.store) == Some(old(s.lock).value.pc.creds)
                && LiveToken(old(s), old(s.store).value.refresh) ==>
                && response.value.Tokens?
                && var t := response.value.refresh;
                && t == Successor(old(s.store).value.refresh, old(s.store).value.requestId.value)
                && IsCurrent(s, t) && LiveToken(s, t)
                && (response.value.expiresIn > 0 ==> s.now < s.connections[ConnectionOf(t)].accessExpires)
                && (response.value.expiresIn == 0 <==> Lapsed(old(s), old(s.store).value.refresh))
    {
      if !LiveToken(s, s.lock.value.pc.creds.refresh) {
        DeadIsRefused(trace, s, attempt, w.nonce);
      } else if s.store == Some(s.lock.value.pc.creds) {
        AnsweredWithTokens(trace, s, attempt, w.nonce);
      }
      hide Handle, LiveToken, Lapsed;
      Take(Send);
      if !w.delivered {
        Take(Abandon);
        return None;
      }
      Take(Serve(w.nonce));
      if !w.answered {
        Take(Abandon);
        return None;
      }
      response := Some(s.lock.value.pc.response);
    }

    /** Take the lock and read the store: either the call is over, or a request has its identity. */
    method Begin(process: nat, rejected: Token, stillValid: bool, idSave: Outcome) returns (done: Option<Result>)
      requires Valid() && s.lock.None?
      modifies this
      ensures Valid() && s.now == old(s.now) && s.connections == old(s.connections)
      ensures done.Some? ==> s.lock.None?
      ensures old(s.store).None? ==> done == Some(AuthRequired) && s == old(s)
      ensures old(s.store).Some? && !MustSend(old(s.store), rejected, stillValid) ==>
                done == Some(Refreshed(old(s.store).value.refresh)) && s == old(s)
      ensures MustSend(old(s.store), rejected, stillValid) ==>
                var creds := old(s.store).value;
                if creds.requestId.None? && !idSave.Saved? then done == Some(Unwritable)
                else
                  && done.None? && Sending(s, 0) && s.store == Some(s.lock.value.pc.creds)
                  && s.store.value == Credentials(creds.refresh, Some(FirstId(old(s))))
                  && |s.minted| == |old(s).minted| + if creds.requestId.None? then 1 else 0
    {
      Take(Acquire(process, rejected));
      Take(Read(stillValid));
      if s.lock.None? {
        return Some(if s.store.None? then AuthRequired else Refreshed(s.store.value.refresh));
      }
      if s.lock.value.pc.NeedsId? {
        var ok := PersistRefreshRequestId(0, idSave);
        if !ok {
          return Some(Unwritable);
        }
      }
      done := None;
    }

    /** Act on an answer: store the tokens it brings, give up, or go for another round. */
    method Settle(attempt: nat, answer: Response, w: Weather) returns (done: Option<Result>)
      requires Valid() && s.lock.Some? && s.lock.value.pc.Answered?
      requires s.lock.value.pc.attempt == attempt && s.lock.value.pc.response == answer
      modifies this
      ensures Valid() && s.now == old(s.now) && s.connections == old(s.connections) && s.minted == old(s.minted)
      ensures done.Some? ==> s.lock.None?
      ensures done.None? ==> s.lock.Some? && s.lock.value.pc.NeedsId? && s.lock.value.pc.attempt == attempt + 1 && attempt < 2
      ensures done.Some? && done.value.Refreshed? ==> s.store == Some(Credentials(done.value.token, None))
      ensures answer.InvalidGrant? ==> done == Some(AuthRequired) && s.store == if w.cleared then None else old(s.store)
      ensures answer.RequestCompleted? ==>
                && s.store == old(s.store)
                && (if attempt == 0 then done.None? && s.lock.value.pc.creds == old(s.lock).value.pc.creds
                    else done == Some(Unavailable))
      ensures answer.Tokens? && !w.tokenSave.Saved? ==>
                && done == Some(Unwritable)
                && (w.tokenSave.FailedUnchanged? ==> s.store == old(s.store))
      ensures answer.Tokens? && w.tokenSave.Saved? ==>
                && s.store == Some(Credentials(answer.refresh, None))
                && (if answer.expiresIn > 0 || attempt >= 2 then done == Some(Refreshed(answer.refresh))
                    else done.None? && s.lock.value.pc.creds == s.store.value)
    {
      Take(TakeAnswer(w.cleared));
      if s.lock.None? {
        return Some(if answer.InvalidGrant? then AuthRequired else Unavailable);
      }
      if answer.Tokens? {
        Take(StoreTokens(w.tokenSave));
        if s.lock.None? {
          return Some(if w.tokenSave.Saved? then Refreshed(answer.refresh) else Unwritable);
        }
      }
      done := None;
    }

    /**
     * Refresh the access token after `rejected` was refused.  `stillValid` is what the clock says
     * about a stored access token another process already replaced.  Whatever the weather, the result is known
     * from the state before; signing in again is asked for exactly when nothing is stored or an answer comes for
     * a connection that is not live.
     */
    method Refresh(process: nat, rejected: Token, stillValid: bool, weather: seq<Weather>) returns (result: Result)
      requires Valid() && s.lock.None? && |weather| == 3
      modifies this
      ensures Valid() && s.lock.None?
      ensures old(s.store).None? ==> result == AuthRequired && s == old(s)
      ensures old(s.store).Some? && !MustSend(old(s.store), rejected, stillValid) ==>
                result == Refreshed(old(s.store).value.refresh) && s == old(s)
      ensures MustSend(old(s.store), rejected, stillValid) ==> result == Expected(old(s), weather)
      ensures MustSend(old(s.store), rejected, stillValid) && result.AuthRequired? ==>
                && !LiveToken(old(s), old(s.store).value.refresh)
                && (if weather[0].cleared then s.store.None?
                    else s.store == Some(Credentials(old(s.store).value.refresh, Some(FirstId(old(s))))))
      ensures MustSend(old(s.store), rejected, stillValid) && (forall i :: 0 <= i < 3 ==> Fine(weather[i])) ==>
                if LiveToken(old(s), old(s.store).value.refresh) then result.Refreshed? else result.AuthRequired?
      ensures result.Unavailable? ==> s.store.Some? && s.store.value.requestId.Some?
      ensures MustSend(old(s.store), rejected, stillValid) && result.Refreshed? ==>
                && s.store == Some(Credentials(result.token, None)) && Settled(s, result.token)
                && Generation(result.token) > Generation(old(s.store).value.refresh)
    {
      hide Apply, Run, Live;
      ghost var from := s;
      var done := Begin(process, rejected, stillValid, weather[0].idSave);
      if done.Some? {
        return done.value;
      }
      var attempt := 0;
      while true
        invariant attempt <= 1 && Valid() && Sending(s, attempt) && MustSend(from.store, rejected, stillValid)
        invariant s.store == Some(s.lock.value.pc.creds)
        invariant StandsAt(from, weather, s, attempt)
        decreases 2 - attempt
      {
        ghost var t := s.store.value;
        var response := PostRefresh(attempt, weather[attempt]);
        if response.None? {
          return Unavailable;
        }
        done := Settle(attempt, response.value, weather[attempt]);
        if done.Some? {
          return done.value;
        }
        attempt := attempt + 1;
        var ok := PersistRefreshRequestId(attempt, weather[attempt].idSave);
        if !ok {
          return Unwritable;
        }
      }
    }
  }
}
