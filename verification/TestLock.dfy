/**
 * The machine-wide test lock: a file that names its owner, created by hard link, reclaimed by
 * process id when the owner is gone, with a second file that lets one reclaimer at a time act.
 *
 * Each step is one system call.  A mark is written to a private file first and then linked into
 * place, and its age counts from the writing.  The environment says what else may happen: a process
 * id coming back, a process dying inside `reclaim`, a process standing still there past the limit.
 */
module TestLock {
  import opened Basics

  datatype Content = Owner(pid: nat) | Junk(bytes: nat)

  /** `written` is the time of the private file that was linked into place. */
  datatype Mark = Mark(pid: nat, written: nat)

  datatype Pc =
    | Trying
    | Looking
    | Judging(seen: Content)
    | Marking(seen: Content)
    | Linking(seen: Content, written: nat)
    | Stating
    | DroppingStale
    | Comparing(seen: Content)
    | Unlinking
    | Unmarking
    | DroppingOwn
    | Holding
    | Releasing

  /** `pcs` has the live processes; `used` every process id that ever was. */
  datatype State = State(
    now: nat,
    lock: Option<Content>,
    mark: Option<Mark>,
    pcs: map<nat, Pc>,
    used: set<nat>)

  datatype Environment = Environment(reuse: bool, death: bool, stall: bool)

  datatype Step =
    | Start(pid: nat)
    | Die(pid: nat)
    | Tick(elapsed: nat)
    | Go(pid: nat)
    | Exit(pid: nat)

  const STALE: nat := 10_000

  /** The mark in place is this process's own. */
  predicate Marked(pc: Pc) {
    pc.Comparing? || pc.Unlinking? || pc.Unmarking? || pc.DroppingOwn?
  }

  /** From the writing of the mark to its removal. */
  predicate InReclaim(pc: Pc) {
    pc.Linking? || Marked(pc)
  }

  predicate Holds(pc: Pc) {
    pc.Holding? || pc.Releasing?
  }

  predicate Gone(alive: set<nat>, c: Content) {
    c.Junk? || c.pid !in alive
  }

  /** A process inside `reclaim` would see its own mark, linked or not, grow stale. */
  predicate Stalls(s: State, elapsed: nat) {
    || (s.mark.Some? && s.mark.value.pid in s.pcs && Marked(s.pcs[s.mark.value.pid])
        && s.now + elapsed - s.mark.value.written > STALE)
    || exists p :: p in s.pcs && s.pcs[p].Linking? && s.now + elapsed - s.pcs[p].written > STALE
  }

  predicate Allowed(e: Environment, s: State, step: Step) {
    match step
    case Start(p) => p !in s.pcs && (e.reuse || p !in s.used)
    case Die(p) => p in s.pcs && (e.death || !InReclaim(s.pcs[p]))
    case Tick(elapsed) => e.stall || !Stalls(s, elapsed)
    case Go(p) => p in s.pcs && !s.pcs[p].Holding?
    case Exit(p) => p in s.pcs && s.pcs[p].Holding?
  }

  function To(s: State, p: nat, pc: Pc): State {
    s.(pcs := s.pcs[p := pc])
  }

  /** The next system call of process `p`. */
  function Advance(s: State, p: nat): State
    requires p in s.pcs
  {
    match s.pcs[p]
    case Trying =>
      if s.lock.None? then To(s.(lock := Some(Owner(p))), p, Holding) else To(s, p, Looking)
    case Looking =>
      if s.lock.None? then To(s, p, Trying) else To(s, p, Judging(s.lock.value))
    case Judging(seen) =>
      if Gone(s.pcs.Keys, seen) then To(s, p, Marking(seen)) else To(s, p, Trying)
    case Marking(seen) => To(s, p, Linking(seen, s.now))
    case Linking(seen, written) =>
      if s.mark.None? then To(s.(mark := Some(Mark(p, written))), p, Comparing(seen)) else To(s, p, Stating)
    case Stating =>
      if s.mark.Some? && s.now - s.mark.value.written > STALE then To(s, p, DroppingStale) else To(s, p, Trying)
    case DroppingStale => To(s.(mark := None), p, Trying)
    case Comparing(seen) =>
      if s.lock == Some(seen) then To(s, p, Unlinking) else To(s, p, Unmarking)
    case Unlinking => To(s.(lock := None), p, Unmarking)
    case Unmarking =>
      if s.mark.Some? && s.mark.value.pid == p then To(s, p, DroppingOwn) else To(s, p, Trying)
    case DroppingOwn => To(s.(mark := None), p, Trying)
    case Holding => s
    case Releasing => s.(lock := None, pcs := s.pcs - {p})
  }

  function Apply(e: Environment, s: State, step: Step): State {
    if !Allowed(e, s, step) then s
    else
      match step
      case Start(p) => s.(pcs := s.pcs[p := Trying], used := s.used + {p})
      case Die(p) => s.(pcs := s.pcs - {p})
      case Tick(elapsed) => s.(now := s.now + elapsed)
      case Go(p) => Advance(s, p)
      case Exit(p) =>
        if s.lock == Some(Owner(p)) then To(s, p, Releasing) else s.(pcs := s.pcs - {p})
  }

  function Run(e: Environment, s: State, steps: seq<Step>): State
    decreases |steps|
  {
    if steps == [] then s else Apply(e, Run(e, s, steps[..|steps| - 1]), steps[|steps| - 1])
  }

  /** No process yet; perhaps a lock file whose owner is long gone, or one nobody can read. */
  predicate Init(s: State) {
    && s.pcs == map[] && s.mark.None?
    && (s.lock.Some? && s.lock.value.Owner? ==> s.lock.value.pid in s.used)
  }

  ghost predicate Exclusive(s: State) {
    forall p, q :: p in s.pcs && q in s.pcs && Holds(s.pcs[p]) && Holds(s.pcs[q]) ==> p == q
  }

  ghost predicate AlwaysExclusive(e: Environment) {
    forall start, steps :: Init(start) ==> Exclusive(Run(e, start, steps))
  }

  // ---------------------------------------------------------------- a kind environment

  const KIND := Environment(false, false, false)

  ghost predicate PcOk(lock: Option<Content>, alive: set<nat>, used: set<nat>, p: nat, pc: Pc) {
    match pc
    case Marking(seen) => Gone(alive, seen) && (seen.Owner? ==> seen.pid in used)
    case Linking(seen, _) => Gone(alive, seen) && (seen.Owner? ==> seen.pid in used)
    case Comparing(seen) => Gone(alive, seen) && (seen.Owner? ==> seen.pid in used)
    case Judging(seen) => seen.Owner? ==> seen.pid in used
    case Unlinking => lock.Some? && Gone(alive, lock.value)
    case Holding => lock == Some(Owner(p))
    case Releasing => lock == Some(Owner(p))
    case DroppingStale => false
    case _ => true
  }

  ghost predicate Inv(s: State) {
    && (forall p :: p in s.pcs ==> p in s.used && PcOk(s.lock, s.pcs.Keys, s.used, p, s.pcs[p]))
    && (forall p :: p in s.pcs && Marked(s.pcs[p]) ==> s.mark.Some? && s.mark.value.pid == p)
    && (forall p :: p in s.pcs && s.pcs[p].Linking? ==> s.pcs[p].written <= s.now <= s.pcs[p].written + STALE)
    && (s.mark.Some? ==>
          && s.mark.value.pid in s.pcs && Marked(s.pcs[s.mark.value.pid])
          && s.mark.value.written <= s.now <= s.mark.value.written + STALE)
    && (s.lock.Some? && s.lock.value.Owner? ==>
          && s.lock.value.pid in s.used
          && (s.lock.value.pid in s.pcs ==> Holds(s.pcs[s.lock.value.pid])))
  }

  /** What every other process needs to stay as it is when `p` moves. */
  ghost predicate Undisturbed(s: State, s': State, p: nat) {
    forall q :: q in s'.pcs && q != p ==> q in s.pcs && s.pcs[q] == s'.pcs[q] && PcOk(s'.lock, s'.pcs.Keys, s'.used, q, s'.pcs[q])
  }

  /** A step that only moves `p` on, with no mark of its own in place before or after. */
  lemma MoveKeeps(s: State, p: nat, pc: Pc)
    requires Inv(s) && p in s.pcs && !Marked(s.pcs[p]) && !Holds(s.pcs[p])
    requires !Marked(pc) && PcOk(s.lock, s.pcs.Keys, s.used, p, pc)
    requires pc.Linking? ==> pc.written == s.now
    ensures Inv(To(s, p, pc))
  {
    hide PcOk;
    var s' := To(s, p, pc);
    assert s'.pcs.Keys == s.pcs.Keys;
  }

  lemma TakesLockKeeps(s: State, p: nat)
    requires Inv(s) && p in s.pcs && s.pcs[p].Trying? && s.lock.None?
    ensures Inv(To(s.(lock := Some(Owner(p))), p, Holding))
  {
    var s' := To(s.(lock := Some(Owner(p))), p, Holding);
    assert s'.pcs.Keys == s.pcs.Keys;
    forall q | q in s.pcs && q != p ensures PcOk(s'.lock, s.pcs.Keys, s.used, q, s.pcs[q]) {
      assert PcOk(s.lock, s.pcs.Keys, s.used, q, s.pcs[q]);
    }
  }

  lemma TakesMarkKeeps(s: State, p: nat, seen: Content, written: nat)
    requires Inv(s) && p in s.pcs && s.pcs[p] == Linking(seen, written) && s.mark.None?
    ensures Inv(To(s.(mark := Some(Mark(p, written))), p, Comparing(seen)))
  {
    assert PcOk(s.lock, s.pcs.Keys, s.used, p, Comparing(seen)) by {
      assert PcOk(s.lock, s.pcs.Keys, s.used, p, s.pcs[p]);
    }
    hide PcOk;
    var s' := To(s.(mark := Some(Mark(p, written))), p, Comparing(seen));
    assert s'.pcs.Keys == s.pcs.Keys;
  }

  lemma AdvanceLockKeeps(s: State, p: nat)
    requires Inv(s) && p in s.pcs && !Marked(s.pcs[p]) && !s.pcs[p].Releasing?
    ensures Inv(Advance(s, p))
  {
    assert PcOk(s.lock, s.pcs.Keys, s.used, p, s.pcs[p]);
    match s.pcs[p]
    case Trying =>
      if s.lock.None? {
        TakesLockKeeps(s, p);
      } else {
        MoveKeeps(s, p, Looking);
      }
    case Looking => MoveKeeps(s, p, if s.lock.None? then Trying else Judging(s.lock.value));
    case Judging(seen) => MoveKeeps(s, p, if Gone(s.pcs.Keys, seen) then Marking(seen) else Trying);
    case Marking(seen) => MoveKeeps(s, p, Linking(seen, s.now));
    case Linking(seen, written) =>
      if s.mark.None? {
        TakesMarkKeeps(s, p, seen, written);
      } else {
        MoveKeeps(s, p, Stating);
      }
    case Stating => MoveKeeps(s, p, Trying);
    case Holding =>
  }

  lemma AdvanceReclaimKeeps(s: State, p: nat)
    requires Inv(s) && p in s.pcs && Marked(s.pcs[p])
    ensures Inv(Advance(s, p))
  {
    var s' := Advance(s, p);
    assert PcOk(s.lock, s.pcs.Keys, s.used, p, s.pcs[p]);
    assert s'.used == s.used && s'.pcs.Keys == s.pcs.Keys;
    assert Undisturbed(s, s', p);
  }

  lemma EndKeeps(s: State, s': State, p: nat)
    requires Inv(s) && p in s.pcs && !InReclaim(s.pcs[p])
    requires s' == s.(pcs := s.pcs - {p}) || (s.pcs[p].Releasing? && s' == s.(lock := None, pcs := s.pcs - {p}))
    ensures Inv(s')
  {
    assert PcOk(s.lock, s.pcs.Keys, s.used, p, s.pcs[p]);
    assert Undisturbed(s, s', p);
  }

  lemma StartKeeps(s: State, p: nat)
    requires Inv(s) && p !in s.used
    ensures Inv(s.(pcs := s.pcs[p := Trying], used := s.used + {p}))
  {
    var s' := s.(pcs := s.pcs[p := Trying], used := s.used + {p});
    assert Undisturbed(s, s', p);
  }

  lemma ApplyKeeps(s: State, step: Step)
    requires Inv(s)
    ensures Inv(Apply(KIND, s, step))
  {
    if Allowed(KIND, s, step) {
      match step
      case Start(p) => StartKeeps(s, p);
      case Die(p) => EndKeeps(s, Apply(KIND, s, step), p);
      case Tick(elapsed) =>
        forall p | p in s.pcs ensures PcOk(s.lock, s.pcs.Keys, s.used, p, s.pcs[p]) {
          assert PcOk(s.lock, s.pcs.Keys, s.used, p, s.pcs[p]);
        }
      case Go(p) =>
        if Marked(s.pcs[p]) {
          AdvanceReclaimKeeps(s, p);
        } else if s.pcs[p].Releasing? {
          EndKeeps(s, Advance(s, p), p);
        } else {
          AdvanceLockKeeps(s, p);
        }
      case Exit(p) =>
        assert PcOk(s.lock, s.pcs.Keys, s.used, p, s.pcs[p]);
        assert Undisturbed(s, To(s, p, Releasing), p);
    }
  }

  lemma InvIsExclusive(s: State)
    requires Inv(s)
    ensures Exclusive(s)
  {
    forall p, q | p in s.pcs && q in s.pcs && Holds(s.pcs[p]) && Holds(s.pcs[q]) ensures p == q {
      assert PcOk(s.lock, s.pcs.Keys, s.used, p, s.pcs[p]) && PcOk(s.lock, s.pcs.Keys, s.used, q, s.pcs[q]);
    }
  }

  lemma {:induction false} RunKeeps(start: State, steps: seq<Step>)
    requires Init(start)
    ensures Inv(Run(KIND, start, steps))
    decreases |steps|
  {
    if steps != [] {
      RunKeeps(start, steps[..|steps| - 1]);
      ApplyKeeps(Run(KIND, start, steps[..|steps| - 1]), steps[|steps| - 1]);
    }
  }

  /** A live owner's lock file changes only when that owner, on its way out, removes it. */
  lemma LiveLockIsSafe(start: State, steps: seq<Step>, step: Step, p: nat)
    requires Init(start)
    ensures var s := Run(KIND, start, steps);
            s.lock == Some(Owner(p)) && p in s.pcs && Apply(KIND, s, step).lock != s.lock ==>
              step == Go(p) && s.pcs[p].Releasing?
  {
    RunKeeps(start, steps);
    var s := Run(KIND, start, steps);
    if Allowed(KIND, s, step) && step.Go? {
      assert PcOk(s.lock, s.pcs.Keys, s.used, step.pid, s.pcs[step.pid]);
    }
  }

  /** How old the mark of a process inside `reclaim` is, written or in place. */
  function MarkAge(s: State, p: nat): int
    requires p in s.pcs
  {
    if s.pcs[p].Linking? then s.now - s.pcs[p].written
    else if s.mark.Some? && s.mark.value.pid == p && Marked(s.pcs[p]) then s.now - s.mark.value.written
    else 0
  }

  /** In a kind environment time passes exactly as long as no such mark gets older than its limit. */
  lemma TimePassesExactlyWhen(s: State, elapsed: nat)
    requires Inv(s)
    ensures Allowed(KIND, s, Tick(elapsed)) <==>
              forall p :: p in s.pcs && InReclaim(s.pcs[p]) ==> MarkAge(s, p) + elapsed <= STALE
  {
  }

  // ---------------------------------------------------------------- the lock is never lost

  /** No live process holds the lock or is on its way out with it. */
  ghost predicate Free(s: State) {
    forall p :: p in s.pcs ==> !Holds(s.pcs[p])
  }

  /** The process and the owner of the mark. */
  function Movers(s: State, p: nat): set<nat> {
    if s.mark.Some? then {p, s.mark.value.pid} else {p}
  }

  /** How many calls the owner of the mark needs to be rid of it, if that is not `p`. */
  function OtherLeft(s: State, p: nat): nat {
    if s.mark.None? || s.mark.value.pid == p || s.mark.value.pid !in s.pcs then 0
    else
      match s.pcs[s.mark.value.pid]
      case Comparing(_) => 4
      case Unlinking => 3
      case Unmarking => 2
      case DroppingOwn => 1
      case _ => 5
  }

  /** How many calls `p` needs at most, nobody else moving; what it read of an older lock costs it another round. */
  function OwnLeft(lock: Option<Content>, pc: Pc): nat {
    match pc
    case Holding => 0
    case Trying => if lock.None? then 1 else 10
    case Looking => if lock.None? then 2 else 9
    case Judging(seen) => if lock == Some(seen) then 8 else 16
    case Marking(seen) => if lock == Some(seen) then 7 else 15
    case Linking(seen, _) => if lock == Some(seen) then 6 else 14
    case Comparing(seen) => if lock == Some(seen) then 5 else 13
    case Unlinking => 4
    case Unmarking => if lock.None? then 3 else 12
    case DroppingOwn => if lock.None? then 2 else 11
    case _ => 11
  }

  /** The owner of the mark moves: it gets closer to giving the mark up, and nobody takes the lock. */
  lemma OtherMoves(s: State, p: nat)
    requires Inv(s) && Free(s) && p in s.pcs && s.mark.Some? && s.mark.value.pid != p
    ensures var q := s.mark.value.pid;
      q in s.pcs && Free(Advance(s, q)) && p in Advance(s, q).pcs && OtherLeft(Advance(s, q), p) < OtherLeft(s, p)
      && q in Movers(s, p) && Movers(Advance(s, q), p) <= Movers(s, p)
  {
    var q := s.mark.value.pid;
    assert PcOk(s.lock, s.pcs.Keys, s.used, q, s.pcs[q]);
  }

  /** With no mark but its own in the way `p` gets closer to holding the lock. */
  lemma OwnMove(s: State, p: nat)
    requires Inv(s) && Free(s) && p in s.pcs && (s.mark.Some? ==> s.mark.value.pid == p)
    ensures var s' := Advance(s, p);
      && p in s'.pcs && (s'.mark.Some? ==> s'.mark.value.pid == p)
      && p in Movers(s, p) && Movers(s', p) <= Movers(s, p)
      && OwnLeft(s'.lock, s'.pcs[p]) < OwnLeft(s.lock, s.pcs[p])
      && (s'.pcs[p].Holding? ==> s'.lock == Some(Owner(p)))
      && (!s'.pcs[p].Holding? ==> Free(s'))
  {
    assert PcOk(s.lock, s.pcs.Keys, s.used, p, s.pcs[p]);
    assert s.lock.Some? ==> Gone(s.pcs.Keys, s.lock.value);
  }

  ghost predicate OnlyMoves(steps: seq<Step>, movers: set<nat>) {
    forall i :: 0 <= i < |steps| ==> steps[i].Go? && steps[i].pid in movers
  }

  lemma NoMoves()
    ensures OnlyMoves([], {})
  {
  }

  lemma MoveFirst(q: nat, more: seq<Step>, fewer: set<nat>, movers: set<nat>)
    requires q in movers && OnlyMoves(more, fewer) && fewer <= movers
    ensures OnlyMoves([Go(q)], movers) && OnlyMoves([Go(q)] + more, movers)
  {
  }

  /**
   * Whatever has happened, once no live process holds the lock any process that waits for it can get it, and all
   * that takes is that it and the owner of a mark go on.
   */
  lemma {:induction false} FreeLockIsTaken(start: State, steps: seq<Step>, p: nat) returns (more: seq<Step>)
    requires Init(start) && Free(Run(KIND, start, steps)) && p in Run(KIND, start, steps).pcs
    ensures OnlyMoves(more, Movers(Run(KIND, start, steps), p))
    ensures var s := Run(KIND, start, steps + more);
      p in s.pcs && s.pcs[p].Holding? && s.lock == Some(Owner(p))
    decreases OtherLeft(Run(KIND, start, steps), p),
      OwnLeft(Run(KIND, start, steps).lock, Run(KIND, start, steps).pcs[p])
  {
    hide Inv, Advance, OtherLeft, OwnLeft, Movers, OnlyMoves;
    var s := Run(KIND, start, steps);
    RunKeeps(start, steps);
    var q := if s.mark.Some? then s.mark.value.pid else p;
    if q != p {
      OtherMoves(s, p);
    } else {
      OwnMove(s, p);
    }
    var next := steps + [Go(q)];
    assert next[..|next| - 1] == steps;
    assert Run(KIND, start, next) == Advance(s, q);
    if Advance(s, q).pcs[p].Holding? {
      more := [Go(q)];
      NoMoves();
      MoveFirst(q, [], {}, Movers(s, p));
    } else {
      OtherStaysAway(s, p);
      more := FreeLockIsTaken(start, next, p);
      MoveFirst(q, more, Movers(Advance(s, q), p), Movers(s, p));
      assert next + more == steps + ([Go(q)] + more);
      more := [Go(q)] + more;
    }
  }

  /** While `p` moves nobody else has a mark. */
  lemma OtherStaysAway(s: State, p: nat)
    requires p in s.pcs
    ensures (s.mark.Some? ==> s.mark.value.pid == p) ==> OtherLeft(s, p) == 0
    ensures p in Advance(s, p).pcs && (Advance(s, p).mark.Some? ==> Advance(s, p).mark.value.pid == p) ==>
              OtherLeft(Advance(s, p), p) == 0
  {
  }

  // ---------------------------------------------------------------- unkind environments

  /** One more step of a run from `start` that has reached `s`. */
  lemma Then(e: Environment, start: State, s: State, t: seq<Step>, step: Step) returns (s': State, t': seq<Step>)
    requires s == Run(e, start, t)
    ensures s' == Apply(e, s, step) && s' == Run(e, start, t')
  {
    t' := t + [step];
    assert t'[..|t'| - 1] == t;
    s' := Apply(e, s, step);
  }

  /** From a first look at a dead owner's lock to the verdict. */
  lemma JudgesDead(e: Environment, start: State, s: State, t: seq<Step>, p: nat) returns (s': State, t': seq<Step>)
    requires s == Run(e, start, t)
    requires p in s.pcs && s.pcs[p].Trying? && s.lock.Some? && Gone(s.pcs.Keys, s.lock.value)
    ensures s' == To(s, p, Marking(s.lock.value)) && s' == Run(e, start, t')
  {
    s', t' := Then(e, start, s, t, Go(p));
    s', t' := Then(e, start, s', t', Go(p));
    s', t' := Then(e, start, s', t', Go(p));
    assert s'.pcs == To(s, p, Marking(s.lock.value)).pcs;
  }

  /** Marks the lock file as being reclaimed and finds it is still the one judged dead. */
  lemma Commits(e: Environment, start: State, s: State, t: seq<Step>, p: nat) returns (s': State, t': seq<Step>)
    requires s == Run(e, start, t)
    requires p in s.pcs && s.mark.None? && s.lock.Some? && s.pcs[p] == Marking(s.lock.value)
    ensures s' == To(s.(mark := Some(Mark(p, s.now))), p, Unlinking) && s' == Run(e, start, t')
  {
    s', t' := Then(e, start, s, t, Go(p));
    s', t' := Then(e, start, s', t', Go(p));
    s', t' := Then(e, start, s', t', Go(p));
    assert s'.pcs == To(s, p, Unlinking).pcs;
  }

  /** Removes the lock file and gives up the mark, if the mark is still its own. */
  lemma Finishes(e: Environment, start: State, s: State, t: seq<Step>, p: nat) returns (s': State, t': seq<Step>)
    requires s == Run(e, start, t)
    requires p in s.pcs && s.pcs[p].Unlinking?
    ensures s' == To(s.(lock := None, mark := if s.mark.Some? && s.mark.value.pid == p then None else s.mark), p, Trying)
    ensures s' == Run(e, start, t')
  {
    s', t' := Then(e, start, s, t, Go(p));
    s', t' := Then(e, start, s', t', Go(p));
    if s.mark.Some? && s.mark.value.pid == p {
      s', t' := Then(e, start, s', t', Go(p));
    }
    assert s'.pcs == To(s, p, Trying).pcs;
  }

  /** Finds somebody else's mark past its limit and decides to remove it. */
  lemma FindsStale(e: Environment, start: State, s: State, t: seq<Step>, p: nat) returns (s': State, t': seq<Step>)
    requires s == Run(e, start, t)
    requires p in s.pcs && s.pcs[p].Marking? && s.mark.Some? && s.now - s.mark.value.written > STALE
    ensures s' == To(s, p, DroppingStale) && s' == Run(e, start, t')
  {
    s', t' := Then(e, start, s, t, Go(p));
    s', t' := Then(e, start, s', t', Go(p));
    s', t' := Then(e, start, s', t', Go(p));
    assert s'.pcs == To(s, p, DroppingStale).pcs;
  }

  /** Finds somebody else's mark, not past its limit, and leaves it: the lock is tried again from the start. */
  lemma LeavesFresh(e: Environment, start: State, s: State, t: seq<Step>, p: nat) returns (s': State, t': seq<Step>)
    requires s == Run(e, start, t)
    requires p in s.pcs && s.pcs[p].Marking? && s.mark.Some? && s.now - s.mark.value.written <= STALE
    ensures s' == To(s, p, Trying) && s' == Run(e, start, t')
  {
    s', t' := Then(e, start, s, t, Go(p));
    s', t' := Then(e, start, s', t', Go(p));
    s', t' := Then(e, start, s', t', Go(p));
    assert s'.pcs == To(s, p, Trying).pcs;
  }

  /** A lock file left by process 0, which is gone. */
  const LEFT_BEHIND := State(0, Some(Owner(0)), None, map[], {0})

  /** Process 1 stands still between the check and the removal, and 2 has found the same owner gone. */
  const STALLED := State(10_001, Some(Owner(0)), Some(Mark(1, 0)), map[1 := Unlinking, 2 := Marking(Owner(0))], {0, 1, 2})

  lemma StallLeavesOneBehind(e: Environment) returns (t: seq<Step>)
    requires e.stall
    ensures Run(e, LEFT_BEHIND, t) == STALLED
  {
    var s := LEFT_BEHIND;
    s, t := Then(e, LEFT_BEHIND, s, [], Start(1));
    s, t := JudgesDead(e, LEFT_BEHIND, s, t, 1);
    s, t := Commits(e, LEFT_BEHIND, s, t, 1);
    s, t := Then(e, LEFT_BEHIND, s, t, Tick(10_001));
    s, t := Then(e, LEFT_BEHIND, s, t, Start(2));
    s, t := JudgesDead(e, LEFT_BEHIND, s, t, 2);
    assert s.pcs == STALLED.pcs;
  }

  /** Standing still between the writing of the mark and its linking leads to the same state. */
  lemma LateLinkLeavesOneBehind(e: Environment) returns (t: seq<Step>)
    requires e.stall
    ensures Run(e, LEFT_BEHIND, t) == STALLED
  {
    var s := LEFT_BEHIND;
    s, t := Then(e, LEFT_BEHIND, s, [], Start(1));
    s, t := JudgesDead(e, LEFT_BEHIND, s, t, 1);
    s, t := Then(e, LEFT_BEHIND, s, t, Go(1));
    s, t := Then(e, LEFT_BEHIND, s, t, Tick(10_001));
    s, t := Then(e, LEFT_BEHIND, s, t, Go(1));
    s, t := Then(e, LEFT_BEHIND, s, t, Go(1));
    s, t := Then(e, LEFT_BEHIND, s, t, Start(2));
    s, t := JudgesDead(e, LEFT_BEHIND, s, t, 2);
    assert s.pcs == STALLED.pcs;
  }

  /** From there the removal hits the next owner's file. */
  lemma StalledBreaksIt(e: Environment, until: seq<Step>) returns (t: seq<Step>)
    requires Run(e, LEFT_BEHIND, until) == STALLED
    ensures !Exclusive(Run(e, LEFT_BEHIND, t))
  {
    var s := STALLED;
    s, t := FindsStale(e, LEFT_BEHIND, s, until, 2);
    s, t := Then(e, LEFT_BEHIND, s, t, Go(2));
    s, t := JudgesDead(e, LEFT_BEHIND, s, t, 2);
    s, t := Commits(e, LEFT_BEHIND, s, t, 2);
    s, t := Finishes(e, LEFT_BEHIND, s, t, 2);
    s, t := Then(e, LEFT_BEHIND, s, t, Go(2));
    s, t := Finishes(e, LEFT_BEHIND, s, t, 1);
    s, t := Then(e, LEFT_BEHIND, s, t, Go(1));
    assert s.pcs[1].Holding? && s.pcs[2].Holding?;
  }

  /** A process stands still between the check and the removal. */
  lemma StallBreaksIt(e: Environment) returns (t: seq<Step>)
    requires e.stall
    ensures !Exclusive(Run(e, LEFT_BEHIND, t))
  {
    t := StallLeavesOneBehind(e);
    t := StalledBreaksIt(e, t);
  }

  /** A process stands still before its mark is in place: the mark is stale when it appears. */
  lemma LateLinkBreaksIt(e: Environment) returns (t: seq<Step>)
    requires e.stall
    ensures !Exclusive(Run(e, LEFT_BEHIND, t))
  {
    t := LateLinkLeavesOneBehind(e);
    t := StalledBreaksIt(e, t);
  }

  /** Process 1 died inside `reclaim`; 2 and 3 both found its mark past the limit. */
  const TWO_SWEEPERS := State(10_001, Some(Owner(0)), Some(Mark(1, 0)),
                              map[2 := DroppingStale, 3 := DroppingStale], {0, 1, 2, 3})

  lemma DeathLeavesTwoSweepers(e: Environment) returns (t: seq<Step>)
    requires e.death
    ensures Run(e, LEFT_BEHIND, t) == TWO_SWEEPERS
  {
    var s := LEFT_BEHIND;
    s, t := Then(e, LEFT_BEHIND, s, [], Start(1));
    s, t := JudgesDead(e, LEFT_BEHIND, s, t, 1);
    s, t := Commits(e, LEFT_BEHIND, s, t, 1);
    s, t := Then(e, LEFT_BEHIND, s, t, Die(1));
    s, t := Then(e, LEFT_BEHIND, s, t, Tick(10_001));
    s, t := Then(e, LEFT_BEHIND, s, t, Start(2));
    s, t := JudgesDead(e, LEFT_BEHIND, s, t, 2);
    s, t := FindsStale(e, LEFT_BEHIND, s, t, 2);
    s, t := Then(e, LEFT_BEHIND, s, t, Start(3));
    s, t := JudgesDead(e, LEFT_BEHIND, s, t, 3);
    s, t := FindsStale(e, LEFT_BEHIND, s, t, 3);
    assert s.pcs == TWO_SWEEPERS.pcs;
  }

  /** A mark nobody owns is removed by whoever found it old, even after a new reclaimer made its own. */
  lemma DeathBreaksIt(e: Environment) returns (t: seq<Step>)
    requires e.death
    ensures !Exclusive(Run(e, LEFT_BEHIND, t))
  {
    t := DeathLeavesTwoSweepers(e);
    var s := TWO_SWEEPERS;
    s, t := Then(e, LEFT_BEHIND, s, t, Go(2));
    s, t := JudgesDead(e, LEFT_BEHIND, s, t, 2);
    s, t := Commits(e, LEFT_BEHIND, s, t, 2);
    s, t := Then(e, LEFT_BEHIND, s, t, Go(3));
    s, t := JudgesDead(e, LEFT_BEHIND, s, t, 3);
    s, t := Commits(e, LEFT_BEHIND, s, t, 3);
    s, t := Finishes(e, LEFT_BEHIND, s, t, 2);
    s, t := Then(e, LEFT_BEHIND, s, t, Go(2));
    s, t := Finishes(e, LEFT_BEHIND, s, t, 3);
    s, t := Then(e, LEFT_BEHIND, s, t, Go(3));
    assert s.pcs[2].Holding? && s.pcs[3].Holding?;
  }

  /** Process 1 has judged the owner gone, and 2 has removed the lock since. */
  const OLD_VERDICT := State(0, None, None, map[1 := Marking(Owner(0)), 2 := Trying], {0, 1, 2})

  lemma VerdictIsOld(e: Environment) returns (t: seq<Step>)
    ensures Run(e, LEFT_BEHIND, t) == OLD_VERDICT
  {
    var s := LEFT_BEHIND;
    s, t := Then(e, LEFT_BEHIND, s, [], Start(1));
    s, t := JudgesDead(e, LEFT_BEHIND, s, t, 1);
    s, t := Then(e, LEFT_BEHIND, s, t, Start(2));
    s, t := JudgesDead(e, LEFT_BEHIND, s, t, 2);
    s, t := Commits(e, LEFT_BEHIND, s, t, 2);
    s, t := Finishes(e, LEFT_BEHIND, s, t, 2);
    assert s.pcs == OLD_VERDICT.pcs;
  }

  /** A verdict on a process id outlives the process: the id comes back and is judged by it. */
  lemma ReuseBreaksIt(e: Environment) returns (t: seq<Step>)
    requires e.reuse
    ensures !Exclusive(Run(e, LEFT_BEHIND, t))
  {
    t := VerdictIsOld(e);
    var s := OLD_VERDICT;
    s, t := Then(e, LEFT_BEHIND, s, t, Start(0));
    s, t := Then(e, LEFT_BEHIND, s, t, Go(0));
    s, t := Commits(e, LEFT_BEHIND, s, t, 1);
    s, t := Finishes(e, LEFT_BEHIND, s, t, 1);
    s, t := Then(e, LEFT_BEHIND, s, t, Go(1));
    assert s.pcs[0].Holding? && s.pcs[1].Holding?;
  }

  /** At most one live process holds the lock in every run, exactly when none of the three can happen. */
  lemma ExclusiveExactlyWhen(e: Environment)
    ensures AlwaysExclusive(e) <==> !e.reuse && !e.death && !e.stall
  {
    if e == KIND {
      forall start, steps | Init(start) ensures Exclusive(Run(e, start, steps)) {
        RunKeeps(start, steps);
        InvIsExclusive(Run(e, start, steps));
      }
    } else {
      assert Init(LEFT_BEHIND);
      var t: seq<Step>;
      if e.stall {
        t := StallBreaksIt(e);
      } else if e.death {
        t := DeathBreaksIt(e);
      } else {
        t := ReuseBreaksIt(e);
      }
      assert !Exclusive(Run(e, LEFT_BEHIND, t));
    }
  }

  // ---------------------------------------------------------------- one process, as its loop

  class Guard {
    var s: State

    constructor (s: State)
      ensures this.s == s
    {
      this.s := s;
    }

    method Call(p: nat)
      requires p in s.pcs
      modifies this
      ensures s == Advance(old(s), p)
    {
      s := Advance(s, p);
    }

    /** All of `reclaim` in one go: what is in the lock now goes if it is what was judged, and no mark is left. */
    method Reclaim(p: nat)
      requires p in s.pcs && s.pcs[p].Marking? && s.mark.None?
      modifies this
      ensures s == To(old(s).(lock := if old(s).lock == Some(old(s).pcs[p].seen) then None else old(s).lock), p, Trying)
    {
      Call(p);
      Call(p);
      Call(p);
      if s.pcs[p].Unlinking? {
        Call(p);
      }
      Call(p);
      Call(p);
      assert s.pcs == To(old(s), p, Trying).pcs;
    }

    /**
     * The waiting loop when no other process moves: a free lock and a dead owner's lock are taken
     * at once and nothing else changes; a live owner's lock is waited for and left alone.
     */
    method AcquireTestLock(p: nat, patience: nat) returns (acquired: bool)
      requires p in s.pcs && s.pcs[p].Trying? && s.mark.None?
      modifies this
      ensures acquired == (old(s).lock.None? || Gone(old(s).pcs.Keys, old(s).lock.value))
      ensures acquired ==> s == To(old(s).(lock := Some(Owner(p))), p, Holding)
      ensures !acquired ==> s == old(s).(now := s.now) && s.now == old(s).now + 500 * patience
    {
      var polls := 0;
      Call(p);
      while s.pcs[p].Looking?
        invariant polls <= patience && p in s.pcs && s.pcs == To(old(s), p, s.pcs[p]).pcs
        invariant s == old(s).(now := old(s).now + 500 * polls, lock := s.lock, pcs := s.pcs)
        invariant s.pcs[p].Looking? || s.pcs[p].Holding?
        invariant s.pcs[p].Looking? ==> s.lock.Some? && s.lock == old(s).lock
        invariant s.pcs[p].Holding? ==> s.lock == Some(Owner(p)) && polls == 0
        invariant s.pcs[p].Holding? ==> old(s).lock.None? || Gone(old(s).pcs.Keys, old(s).lock.value)
        invariant polls > 0 ==> old(s).lock.Some? && !Gone(old(s).pcs.Keys, old(s).lock.value)
        decreases patience - polls, s.pcs[p].Looking?
      {
        Call(p);
        Call(p);
        if s.pcs[p].Marking? {
          Reclaim(p);
        } else if polls == patience {
          assert s.pcs == old(s).pcs;
          return false;
        } else {
          s := s.(now := s.now + 500);
          polls := polls + 1;
        }
        Call(p);
      }
      acquired := true;
    }

    /** The exit handler: the lock goes with its owner, and nobody else's lock does. */
    method Leave(p: nat)
      requires p in s.pcs && s.pcs[p].Holding?
      modifies this
      ensures s == old(s).(pcs := old(s).pcs - {p},
                           lock := if old(s).lock == Some(Owner(p)) then None else old(s).lock)
    {
      s := Apply(KIND, s, Exit(p));
      if p in s.pcs {
        Call(p);
      }
      assert s.pcs == old(s).pcs - {p};
    }
  }
}
