/** The bounded caches of the workbench: the few images and thumbnails used most recently. */
module RecentCache {
  import opened Basics

  /** Entries from the one used longest ago to the one used last. */
  type Entries<V> = seq<(string, V)>

  /** What a cache takes in, what a look-up counts as a use, and whether it throws out the rest. */
  datatype Rules<!V> = Rules(limit: nat, accepts: V -> bool, refreshes: V -> bool, discards: bool)

  datatype Thumbnail = Thumbnail(dataUrl: string, version: int)

  const IMAGES: Rules<string> := Rules(8, (s: string) => true, (s: string) => s != "", false)

  /** Thumbnails made in another way than the `current` one are of no use. */
  function Thumbnails(current: int): Rules<Thumbnail> {
    Rules(80, (t: Thumbnail) => t.version == current, (t: Thumbnail) => t.version == current, true)
  }

  datatype Op<V> = Put(id: string, value: V) | Get(id: string) | Delete(id: string) | Clear

  function Lookup<V>(e: Entries<V>, id: string): Option<V> {
    if e == [] then None else if e[0].0 == id then Some(e[0].1) else Lookup(e[1..], id)
  }

  function Without<V>(e: Entries<V>, id: string): Entries<V> {
    if e == [] then [] else if e[0].0 == id then Without(e[1..], id) else [e[0]] + Without(e[1..], id)
  }

  function Trimmed<V>(e: Entries<V>, limit: nat): Entries<V> {
    if |e| > limit then e[|e| - limit..] else e
  }

  /** The id that an operation uses, if it uses one. */
  function Use<V>(rules: Rules<V>, e: Entries<V>, op: Op<V>): Option<string> {
    match op
    case Put(id, value) => if rules.accepts(value) then Some(id) else None
    case Get(id) => if Lookup(e, id).Some? && rules.refreshes(Lookup(e, id).value) then Some(id) else None
    case Delete(_) => None
    case Clear => None
  }

  function Step<V>(rules: Rules<V>, e: Entries<V>, op: Op<V>): Entries<V> {
    match op
    case Put(id, value) => if rules.accepts(value) then Trimmed(Without(e, id) + [(id, value)], rules.limit) else e
    case Get(id) =>
      (match Lookup(e, id)
       case None => e
       case Some(v) => if rules.refreshes(v) then Without(e, id) + [(id, v)] else if rules.discards then Without(e, id) else e)
    case Delete(id) => Without(e, id)
    case Clear => []
  }

  class Cache<V> {
    const rules: Rules<V>
    var entries: Entries<V>

    constructor (rules: Rules<V>)
      ensures this.rules == rules && entries == []
    {
      this.rules := rules;
      entries := [];
    }

    method Get(id: string) returns (r: Option<V>)
      modifies this
      ensures entries == Step(rules, old(entries), Op.Get(id))
      ensures r == if Lookup(old(entries), id).Some? && rules.discards && !rules.refreshes(Lookup(old(entries), id).value)
                   then None else Lookup(old(entries), id)
    {
      r := Lookup(entries, id);
      if r.Some? {
        if rules.refreshes(r.value) {
          entries := Without(entries, id);
          entries := entries + [(id, r.value)];
        } else if rules.discards {
          entries := Without(entries, id);
          r := None;
        }
      }
    }

    method Put(id: string, value: V)
      modifies this
      ensures entries == Step(rules, old(entries), Op.Put(id, value))
    {
      if !rules.accepts(value) {
        return;
      }
      entries := Without(entries, id);
      entries := entries + [(id, value)];
      ghost var whole := entries;
      while |entries| > rules.limit
        invariant |entries| <= |whole| && entries == whole[|whole| - |entries|..]
        invariant |entries| >= rules.limit || entries == whole
      {
        entries := entries[1..];
      }
    }

    method Delete(id: string)
      modifies this
      ensures entries == Step(rules, old(entries), Op.Delete(id))
    {
      entries := Without(entries, id);
    }

    method Clear()
      modifies this
      ensures entries == Step(rules, old(entries), Op.Clear)
    {
      entries := [];
    }
  }

  // ---------------------------------------------------------------- any sequence of operations

  function Run<V>(rules: Rules<V>, ops: seq<Op<V>>): Entries<V> {
    if ops == [] then [] else Step(rules, Run(rules, ops[..|ops| - 1]), ops[|ops| - 1])
  }

  function Ids<V>(e: Entries<V>): set<string> {
    if e == [] then {} else {e[0].0} + Ids(e[1..])
  }

  predicate Distinct<V>(e: Entries<V>) {
    e == [] || (e[0].0 !in Ids(e[1..]) && Distinct(e[1..]))
  }

  lemma {:induction false} WithoutIs<V>(e: Entries<V>, id: string, other: string)
    ensures Ids(Without(e, id)) == Ids(e) - {id}
    ensures |Without(e, id)| <= |e| && (id in Ids(e) ==> |Without(e, id)| < |e|)
    ensures Distinct(e) ==> Distinct(Without(e, id))
    ensures Lookup(Without(e, id), other) == if other == id then None else Lookup(e, other)
  {
    if e != [] {
      WithoutIs(e[1..], id, other);
      if e[0].0 != id {
        assert Without(e, id)[1..] == Without(e[1..], id);
      }
    }
  }

  lemma {:induction false} AppendIs<V>(e: Entries<V>, id: string, v: V, other: string)
    ensures Ids(e + [(id, v)]) == Ids(e) + {id}
    ensures Distinct(e) && id !in Ids(e) ==> Distinct(e + [(id, v)])
    ensures id !in Ids(e) ==> Lookup(e + [(id, v)], other) == if other == id then Some(v) else Lookup(e, other)
  {
    if e == [] {
      assert (e + [(id, v)])[1..] == [];
    } else {
      AppendIs(e[1..], id, v, other);
      assert (e + [(id, v)])[1..] == e[1..] + [(id, v)];
    }
  }

  lemma {:induction false} LookupIs<V>(e: Entries<V>, id: string)
    ensures Lookup(e, id).Some? <==> id in Ids(e)
  {
    if e != [] {
      LookupIs(e[1..], id);
    }
  }

  lemma TrimmedIs<V>(e: Entries<V>, limit: nat, id: string)
    requires Distinct(e) && |e| <= limit + 1
    ensures Distinct(Trimmed(e, limit)) && |Trimmed(e, limit)| <= limit && Ids(Trimmed(e, limit)) <= Ids(e)
    ensures Lookup(Trimmed(e, limit), id).Some? ==> Lookup(Trimmed(e, limit), id) == Lookup(e, id)
  {
    if |e| > limit {
      assert Trimmed(e, limit) == e[1..];
      LookupIs(e[1..], id);
    }
  }

  /** An operation on entries with different ids leaves such entries, at most `limit` of them, and trims at most one. */
  lemma StepIs<V>(rules: Rules<V>, e: Entries<V>, op: Op<V>, other: string)
    requires Distinct(e) && |e| <= rules.limit
    ensures var after := Step(rules, e, op);
      && Distinct(after) && |after| <= rules.limit
      && (Lookup(after, other).Some? ==>
            Lookup(after, other) == if op.Put? && rules.accepts(op.value) && op.id == other then Some(op.value) else Lookup(e, other))
      && (op == Op.Delete(other) || op.Clear? ==> Lookup(after, other).None?)
  {
    hide Lookup, Without, Ids, Distinct;
    match op
    case Put(id, value) =>
      WithoutIs(e, id, other);
      AppendIs(Without(e, id), id, value, other);
      TrimmedIs(Without(e, id) + [(id, value)], rules.limit, other);
    case Get(id) =>
      WithoutIs(e, id, other);
      LookupIs(e, id);
      if Lookup(e, id).Some? {
        AppendIs(Without(e, id), id, Lookup(e, id).value, other);
      }
    case Delete(id) => WithoutIs(e, id, other);
    case Clear => assert Lookup<V>([], other) == None && Distinct<V>([]) by { Nothing<V>(other); }
  }

  lemma Nothing<V>(id: string)
    ensures Lookup<V>([], id) == None && Distinct<V>([])
  {
  }

  /** The value stored last under an id and not deleted since. */
  function LastStored<V>(rules: Rules<V>, ops: seq<Op<V>>, id: string): Option<V> {
    if ops == [] then None
    else
      var op := ops[|ops| - 1];
      if op.Put? && op.id == id && rules.accepts(op.value) then Some(op.value)
      else if op == Op.Delete(id) || op.Clear? then None
      else LastStored(rules, ops[..|ops| - 1], id)
  }

  /** Operation `i` stored `v` under the id, and none since has stored, deleted or cleared it. */
  ghost predicate StoredAt<V>(rules: Rules<V>, ops: seq<Op<V>>, id: string, v: V, i: int) {
    && 0 <= i < |ops| && ops[i] == Op.Put(id, v) && rules.accepts(v)
    && forall j :: i < j < |ops| ==>
         ops[j] != Op.Delete(id) && !ops[j].Clear? && !(ops[j].Put? && ops[j].id == id && rules.accepts(ops[j].value))
  }

  lemma {:induction false} LastStoredExactlyWhen<V>(rules: Rules<V>, ops: seq<Op<V>>, id: string, v: V)
    ensures LastStored(rules, ops, id) == Some(v) <==> exists i :: StoredAt(rules, ops, id, v, i)
  {
    if ops != [] {
      var front, last := ops[..|ops| - 1], |ops| - 1;
      LastStoredExactlyWhen(rules, front, id, v);
      if i :| StoredAt(rules, ops, id, v, i) {
        if i < last {
          assert StoredAt(rules, front, id, v, i);
        }
      }
      if LastStored(rules, ops, id) == Some(v) {
        var stores := ops[last].Put? && ops[last].id == id && rules.accepts(ops[last].value);
        if LastStored(rules, front, id) == Some(v) && !stores {
          var i :| StoredAt(rules, front, id, v, i);
          assert StoredAt(rules, ops, id, v, i);
        } else {
          assert StoredAt(rules, ops, id, v, last);
        }
      }
    }
  }

  /**
   * However a cache was used, it stays within its limit, and what it finds is what was stored last, of a kind it
   * takes.
   */
  lemma {:induction false} FindsTheLast<V>(rules: Rules<V>, ops: seq<Op<V>>, id: string)
    ensures var e := Run(rules, ops);
      && Distinct(e) && |e| <= rules.limit
      && (Lookup(e, id).Some? ==> Lookup(e, id) == LastStored(rules, ops, id) && rules.accepts(Lookup(e, id).value))
  {
    if ops != [] {
      var front, op := ops[..|ops| - 1], ops[|ops| - 1];
      FindsTheLast(rules, front, id);
      StepIs(rules, Run(rules, front), op, id);
    }
  }

  // ---------------------------------------------------------------- how long an entry stays

  /** The ids used after `id` was. */
  function Behind<V>(e: Entries<V>, id: string): set<string> {
    if e == [] then {} else if e[0].0 == id then Ids(e[1..]) else Behind(e[1..], id)
  }

  lemma {:induction false} BehindWithout<V>(e: Entries<V>, id: string, other: string)
    requires id != other
    ensures Behind(Without(e, other), id) == Behind(e, id) - {other}
  {
    if e != [] {
      BehindWithout(e[1..], id, other);
      WithoutIs(e[1..], other, id);
      if e[0].0 != other {
        assert Without(e, other)[1..] == Without(e[1..], other);
      }
    }
  }

  lemma {:induction false} BehindAppend<V>(e: Entries<V>, id: string, other: string, v: V)
    requires id in Ids(e)
    ensures Behind(e + [(other, v)], id) == Behind(e, id) + {other}
  {
    assert (e + [(other, v)])[1..] == e[1..] + [(other, v)];
    AppendIs(e[1..], other, v, id);
    if e[0].0 != id {
      BehindAppend(e[1..], id, other, v);
    }
  }

  lemma {:induction false} SizeIs<V>(e: Entries<V>)
    requires Distinct(e)
    ensures |Ids(e)| == |e|
  {
    if e != [] {
      SizeIs(e[1..]);
    }
  }

  /** Trimming one entry too many takes `id` exactly when all the others are behind it. */
  lemma TrimmedKeeps<V>(e: Entries<V>, limit: nat, id: string)
    requires Distinct(e) && id in Ids(e) && |e| <= limit + 1
    ensures |Behind(e, id)| < |e|
    ensures id in Ids(Trimmed(e, limit)) <==> |Behind(e, id)| < limit
    ensures id in Ids(Trimmed(e, limit)) ==> Behind(Trimmed(e, limit), id) == Behind(e, id)
    ensures id in Ids(Trimmed(e, limit)) ==> Lookup(Trimmed(e, limit), id) == Lookup(e, id)
  {
    SizeIs(e);
    SizeIs(e[1..]);
    BehindIsFewer(e, id);
    if |e| > limit {
      assert Trimmed(e, limit) == e[1..];
    }
  }

  lemma {:induction false} BehindIsFewer<V>(e: Entries<V>, id: string)
    requires Distinct(e) && id in Ids(e)
    ensures |Behind(e, id)| < |e| && (e[0].0 != id ==> |Behind(e, id)| < |e| - 1)
  {
    SizeIs(e[1..]);
    if e[0].0 != id {
      BehindIsFewer(e[1..], id);
    }
  }

  /** The other ids used from operation `i` on. */
  function UsedSince<V>(rules: Rules<V>, ops: seq<Op<V>>, i: nat): set<string> {
    if |ops| <= i then {}
    else
      var front := ops[..|ops| - 1];
      UsedSince(rules, front, i) + Used(rules, Run(rules, front), ops[|ops| - 1])
  }

  function Used<V>(rules: Rules<V>, e: Entries<V>, op: Op<V>): set<string> {
    if Use(rules, e, op).Some? then {Use(rules, e, op).value} else {}
  }

  /** From operation `i` on nothing uses, deletes or clears `id`. */
  predicate LeftAlone<V(==)>(rules: Rules<V>, ops: seq<Op<V>>, i: nat, id: string) {
    forall k :: i <= k < |ops| ==>
      Use(rules, Run(rules, ops[..k]), ops[k]) != Some(id) && ops[k] != Op.Delete(id) && !ops[k].Clear?
  }

  predicate NoDeletes<V>(ops: seq<Op<V>>, i: nat) {
    forall k :: i <= k < |ops| ==> !ops[k].Delete?
  }

  /** Where `id` stands once `used` other ids have been used after it. */
  ghost predicate Standing<V>(rules: Rules<V>, e: Entries<V>, id: string, v: V, used: set<string>, exact: bool) {
    && Distinct(e) && |e| <= rules.limit
    && (if id in Ids(e) then
          && Lookup(e, id) == Some(v) && Behind(e, id) <= used
          && (exact ==> Behind(e, id) == used && |used| < rules.limit)
        else |used| >= rules.limit)
  }

  lemma SubsetIsFewer(a: set<string>, b: set<string>)
    requires a <= b
    ensures |a| <= |b|
  {
    assert b == a + (b - a);
  }

  lemma UsingAnother<V>(rules: Rules<V>, e: Entries<V>, x: string, w: V, id: string, v: V, used: set<string>,
      exact: bool)
    requires Standing(rules, e, id, v, used, exact) && x != id
    ensures Standing(rules, Trimmed(Without(e, x) + [(x, w)], rules.limit), id, v, used + {x}, exact)
  {
    hide Lookup, Without, Ids, Distinct, Behind;
    var moved := Without(e, x) + [(x, w)];
    var after := Trimmed(moved, rules.limit);
    WithoutIs(e, x, id);
    AppendIs(Without(e, x), x, w, id);
    SubsetIsFewer(used, used + {x});
    TrimmedIs(moved, rules.limit, id);
    if id in Ids(e) {
      BehindWithout(e, id, x);
      BehindAppend(Without(e, x), id, x, w);
      assert Behind(moved, id) == Behind(e, id) + {x};
      SubsetIsFewer(Behind(moved, id), used + {x});
      TrimmedKeeps(moved, rules.limit, id);
    }
  }

  lemma StandingStep<V>(rules: Rules<V>, e: Entries<V>, op: Op<V>, id: string, v: V, used: set<string>, exact: bool)
    requires Standing(rules, e, id, v, used, exact)
    requires Use(rules, e, op) != Some(id) && op != Op.Delete(id) && !op.Clear? && (exact ==> !op.Delete?)
    requires op.Get? && rules.discards && Lookup(e, op.id).Some? ==> rules.refreshes(Lookup(e, op.id).value)
    ensures Standing(rules, Step(rules, e, op), id, v, used + Used(rules, e, op), exact)
  {
    hide Lookup, Without, Ids, Distinct, Behind;
    match op
    case Put(x, w) =>
      if rules.accepts(w) {
        UsingAnother(rules, e, x, w, id, v, used, exact);
      }
    case Get(x) =>
      if Lookup(e, x).Some? && rules.refreshes(Lookup(e, x).value) {
        UsingAnother(rules, e, x, Lookup(e, x).value, id, v, used, exact);
        LookupIs(e, x);
        WithoutIs(e, x, id);
      }
    case Delete(x) =>
      WithoutIs(e, x, id);
      BehindWithout(e, id, x);
      if id in Ids(e) {
        SubsetIsFewer(Behind(Without(e, x), id), used);
      }
    case Clear =>
  }

  /** A cache that throws out what a look-up does not refresh never takes such things in. */
  ghost predicate Keeps<V(!new)>(rules: Rules<V>) {
    rules.discards ==> forall v :: rules.accepts(v) ==> rules.refreshes(v)
  }

  lemma UsedStands<V>(rules: Rules<V>, e: Entries<V>, op: Op<V>, id: string)
    requires Distinct(e) && |e| <= rules.limit && Use(rules, e, op) == Some(id)
    ensures var after := Step(rules, e, op);
      && Distinct(after) && |after| <= rules.limit
      && (rules.limit > 0 ==> id in Ids(after) && Behind(after, id) == {})
      && (rules.limit == 0 ==> after == [])
  {
    StepIs(rules, e, op, id);
    LookupIs(e, id);
    WithoutIs(e, id, id);
    var v := if op.Put? then op.value else Lookup(e, id).value;
    var moved := Without(e, id) + [(id, v)];
    AppendIs(Without(e, id), id, v, id);
    LastIsFree(Without(e, id), id, v);
    TrimmedKeeps(moved, rules.limit, id);
  }

  lemma {:induction false} LastIsFree<V>(e: Entries<V>, id: string, v: V)
    requires id !in Ids(e)
    ensures Behind(e + [(id, v)], id) == {}
  {
    assert (e + [(id, v)])[1..] == if e == [] then [] else e[1..] + [(id, v)];
    if e != [] {
      LastIsFree(e[1..], id, v);
    }
  }

  lemma AloneInFront<V>(rules: Rules<V>, ops: seq<Op<V>>, i: nat, id: string)
    requires LeftAlone(rules, ops, i, id) && i < |ops|
    ensures var front, op := ops[..|ops| - 1], ops[|ops| - 1];
      && LeftAlone(rules, front, i, id)
      && Use(rules, Run(rules, front), op) != Some(id) && op != Op.Delete(id) && !op.Clear?
  {
    hide Use, Run;
    var front := ops[..|ops| - 1];
    forall k | i <= k < |front|
      ensures Use(rules, Run(rules, front[..k]), front[k]) != Some(id) && front[k] != Op.Delete(id) && !front[k].Clear?
    {
      assert front[..k] == ops[..k];
    }
  }

  lemma {:induction false} StandsAfter<V(!new)>(rules: Rules<V>, ops: seq<Op<V>>, i: nat, id: string, v: V, exact: bool)
    requires Keeps(rules) && 0 < i <= |ops| && Use(rules, Run(rules, ops[..i - 1]), ops[i - 1]) == Some(id)
    requires Lookup(Run(rules, ops[..i]), id).Some? ==> Lookup(Run(rules, ops[..i]), id) == Some(v)
    requires LeftAlone(rules, ops, i, id) && (exact ==> NoDeletes(ops, i))
    ensures Standing(rules, Run(rules, ops), id, v, UsedSince(rules, ops, i), exact)
    decreases |ops|
  {
    hide Use, Step, Standing, Keeps, LeftAlone;
    var front, op := ops[..|ops| - 1], ops[|ops| - 1];
    var e := Run(rules, front);
    FindsTheLast(rules, front, id);
    if i == |ops| {
      assert ops[..i] == ops && ops[..i - 1] == front;
      UsedStands(rules, e, op, id);
      LookupIs(Run(rules, ops), id);
      assert Standing(rules, Run(rules, ops), id, v, {}, exact) by {
        StandingFrom(rules, Run(rules, ops), id, v, exact);
      }
    } else {
      assert front[..i] == ops[..i] && front[..i - 1] == ops[..i - 1] && front[i - 1] == ops[i - 1];
      AloneInFront(rules, ops, i, id);
      StandsAfter(rules, front, i, id, v, exact);
      if op.Get? && rules.discards && Lookup(e, op.id).Some? {
        FindsTheLast(rules, front, op.id);
        Refreshed(rules, Lookup(e, op.id).value);
      }
      StandingStep(rules, e, op, id, v, UsedSince(rules, front, i), exact);
    }
  }

  lemma Refreshed<V(!new)>(rules: Rules<V>, v: V)
    requires Keeps(rules) && rules.discards && rules.accepts(v)
    ensures rules.refreshes(v)
  {
  }

  lemma StandingFrom<V>(rules: Rules<V>, e: Entries<V>, id: string, v: V, exact: bool)
    requires Distinct(e) && |e| <= rules.limit
    requires if rules.limit > 0 then id in Ids(e) && Behind(e, id) == {} && Lookup(e, id) == Some(v) else e == []
    ensures Standing(rules, e, id, v, {}, exact)
  {
  }

  /**
   * An entry last used by operation `i` and left alone since is still found, with the value stored last, while
   * fewer than `limit` other ids have been used; and where nothing was deleted, only then.
   */
  lemma StaysExactlyWhile<V(!new)>(rules: Rules<V>, ops: seq<Op<V>>, i: nat, id: string)
    requires Keeps(rules) && i < |ops| && Use(rules, Run(rules, ops[..i]), ops[i]) == Some(id)
    requires LeftAlone(rules, ops, i + 1, id)
    ensures |UsedSince(rules, ops, i + 1)| < rules.limit ==>
        Lookup(Run(rules, ops), id).Some? && Lookup(Run(rules, ops), id) == LastStored(rules, ops, id)
    ensures NoDeletes(ops, i + 1) ==>
        (Lookup(Run(rules, ops), id).Some? <==> |UsedSince(rules, ops, i + 1)| < rules.limit)
  {
    hide Step, Run, LastStored, UsedSince, LeftAlone, Keeps, Lookup, Ids, Behind, Distinct;
    var e, op := Run(rules, ops[..i]), ops[i];
    assert ops[..i + 1][..i] == ops[..i];
    assert Run(rules, ops[..i + 1]) == Step(rules, e, op) by {
      RunsOn(rules, ops, i);
    }
    FindsTheLast(rules, ops[..i], id);
    StepIs(rules, e, op, id);
    var v := if op.Put? then op.value else Lookup(e, id).value;
    FindsTheLast(rules, ops, id);
    LookupIs(Run(rules, ops), id);
    StandsAfter(rules, ops, i + 1, id, v, false);
    if NoDeletes(ops, i + 1) {
      StandsAfter(rules, ops, i + 1, id, v, true);
    }
  }

  lemma RunsOn<V>(rules: Rules<V>, ops: seq<Op<V>>, i: nat)
    requires i < |ops|
    ensures Run(rules, ops[..i + 1]) == Step(rules, Run(rules, ops[..i]), ops[i])
  {
    assert ops[..i + 1][..i] == ops[..i];
  }

  /** Both caches of the workbench are of this kind, whichever thumbnails are the current ones. */
  lemma WorkbenchCachesKeep(current: int, ops: seq<Op<Thumbnail>>, id: string)
    ensures Keeps(IMAGES) && Keeps(Thumbnails(current)) && |Run(Thumbnails(current), ops)| <= 80
    ensures IMAGES.limit == 8 && Thumbnails(current).limit == 80 && Thumbnails(current).discards
    ensures var found := Lookup(Run(Thumbnails(current), ops), id);
      found.Some? ==> found.value.version == current
  {
    FindsTheLast(Thumbnails(current), ops, id);
  }
}
