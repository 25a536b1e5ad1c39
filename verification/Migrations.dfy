/** The guard before migrating, the migrator, and the count that checks the result. */
module Migrations {
  import opened Basics

  datatype Entry = Entry(tag: string, stamp: int)

  datatype Row = Row(hash: string, createdAt: int)

  datatype Pin = Pin(tag: string, stamp: int, hash: string)

  /** An audited equivalence: `forward` stands in for `original` once it is applied. */
  datatype Supersession = Supersession(original: Pin, forward: Pin)

  /** The committed history: the journal, the hashes of the SQL files, and the audited exceptions. */
  datatype Committed = Committed(journal: seq<Entry>, files: map<string, string>, supersessions: seq<Supersession>)

  function FindEntry(journal: seq<Entry>, tag: string): (r: Option<Entry>)
    ensures r.Some? ==> r.value in journal && r.value.tag == tag
    ensures r.None? ==> forall e :: e in journal ==> e.tag != tag
  {
    if journal == [] then None
    else if journal[0].tag == tag then Some(journal[0])
    else FindEntry(journal[1..], tag)
  }

  function FindSupersession(table: seq<Supersession>, tag: string): (r: Option<Supersession>)
    ensures r.Some? ==> r.value in table && r.value.original.tag == tag
    ensures r.None? ==> forall s :: s in table ==> s.original.tag != tag
  {
    if table == [] then None
    else if table[0].original.tag == tag then Some(table[0])
    else FindSupersession(table[1..], tag)
  }

  predicate IsApplied(rows: seq<Row>, stamp: int) {
    exists i :: 0 <= i < |rows| && rows[i].createdAt == stamp
  }

  function Newest(rows: seq<Row>): (r: int)
    requires rows != []
    ensures IsApplied(rows, r)
    ensures forall i :: 0 <= i < |rows| ==> rows[i].createdAt <= r
  {
    var last := rows[|rows| - 1];
    if |rows| == 1 then last.createdAt
    else
      var before := Newest(rows[..|rows| - 1]);
      assert forall i :: 0 <= i < |rows| - 1 ==> rows[..|rows| - 1][i] == rows[i];
      if before >= last.createdAt then before else last.createdAt
  }

  datatype Verdict = Applied | NotApplied | InvalidPins | FileMismatch | RowMismatch

  predicate Broken(v: Verdict) {
    v.InvalidPins? || v.FileMismatch? || v.RowMismatch?
  }

  predicate PinMatches(c: Committed, pin: Pin) {
    pin.tag in c.files && c.files[pin.tag] == pin.hash
  }

  /** Whether the replacement is in the history, once everything pinned about it has been checked. */
  function VerdictOf(c: Committed, s: Supersession, rows: seq<Row>): Verdict {
    var entry := FindEntry(c.journal, s.original.tag);
    var replacement := FindEntry(c.journal, s.forward.tag);
    if entry.None? || entry.value.stamp != s.original.stamp || replacement.None?
       || replacement.value.stamp != s.forward.stamp || s.forward.stamp <= s.original.stamp then InvalidPins
    else if !PinMatches(c, s.original) || !PinMatches(c, s.forward) then FileMismatch
    else if exists i :: 0 <= i < |rows| && rows[i].createdAt == s.forward.stamp && rows[i].hash != s.forward.hash then RowMismatch
    else if IsApplied(rows, s.forward.stamp) then Applied
    else NotApplied
  }

  // ---------------------------------------------------------------- the guard

  datatype Judgement = Fine | Skipped | Breaks

  function Judge(c: Committed, rows: seq<Row>, e: Entry): Judgement
    requires rows != []
  {
    if e.stamp > Newest(rows) || IsApplied(rows, e.stamp) then Fine
    else
      var s := FindSupersession(c.supersessions, e.tag);
      if s.None? then Skipped
      else
        var verdict := VerdictOf(c, s.value, rows);
        if Broken(verdict) then Breaks
        else if verdict.Applied? || s.value.forward.stamp > Newest(rows) then Fine
        else Skipped
  }

  datatype Outcome = Passes | Refuses(tags: seq<string>) | Throws

  /** Refuses with exactly the entries judged skipped, in order; passes when there are none. */
  method AssertNoSkippedMigrations(c: Committed, rows: seq<Row>) returns (r: Outcome)
    ensures rows == [] ==> r.Passes?
    ensures rows != [] ==> (r.Throws? <==> exists k :: 0 <= k < |c.journal| && Judge(c, rows, c.journal[k]).Breaks?)
    ensures rows != [] && !r.Throws? ==>
              (forall k :: 0 <= k < |c.journal| ==>
                (Judge(c, rows, c.journal[k]).Skipped? ==> r.Refuses? && c.journal[k].tag in r.tags))
    ensures rows != [] && r.Refuses? ==> r.tags != [] && forall t :: t in r.tags ==>
              exists k :: 0 <= k < |c.journal| && c.journal[k].tag == t && Judge(c, rows, c.journal[k]).Skipped?
  {
    if |rows| == 0 {
      return Passes;
    }
    var newest := Newest(rows);
    var skipped: seq<string> := [];
    for k := 0 to |c.journal|
      invariant forall j :: 0 <= j < k ==> !Judge(c, rows, c.journal[j]).Breaks?
      invariant forall j :: 0 <= j < k && Judge(c, rows, c.journal[j]).Skipped? ==> c.journal[j].tag in skipped
      invariant forall t :: t in skipped ==>
                  exists j :: 0 <= j < k && c.journal[j].tag == t && Judge(c, rows, c.journal[j]).Skipped?
    {
      var entry := c.journal[k];
      if entry.stamp > newest || IsApplied(rows, entry.stamp) {
        continue;
      }
      var supersession := FindSupersession(c.supersessions, entry.tag);
      if supersession.Some? {
        var verdict := VerdictOf(c, supersession.value, rows);
        if Broken(verdict) {
          return Throws;
        }
        if verdict.Applied? || supersession.value.forward.stamp > newest {
          continue;
        }
      }
      skipped := skipped + [entry.tag];
    }
    r := if skipped == [] then Passes else Refuses(skipped);
  }

  // ---------------------------------------------------------------- the migrator

  /** Entries newer than the newest applied one run in journal order and leave their hash and stamp. */
  function RowsAdded(c: Committed, rows: seq<Row>, journal: seq<Entry>): (added: seq<Row>)
    requires forall e :: e in journal ==> e.tag in c.files
    ensures forall i :: 0 <= i < |added| ==> rows == [] || added[i].createdAt > Newest(rows)
    ensures forall e :: e in journal && (rows == [] || e.stamp > Newest(rows)) ==> Row(c.files[e.tag], e.stamp) in added
    ensures forall r :: r in added ==> exists e :: e in journal && r == Row(c.files[e.tag], e.stamp)
  {
    if journal == [] then []
    else
      var e := journal[0];
      var rest := RowsAdded(c, rows, journal[1..]);
      assert journal == [e] + journal[1..];
      if rows == [] || e.stamp > Newest(rows) then [Row(c.files[e.tag], e.stamp)] + rest else rest
  }

  predicate FilesPresent(c: Committed) {
    forall e :: e in c.journal ==> e.tag in c.files
  }

  function Migrate(c: Committed, rows: seq<Row>): seq<Row>
    requires FilesPresent(c)
  {
    rows + RowsAdded(c, rows, c.journal)
  }

  predicate Distinct(journal: seq<Entry>) {
    forall i, j :: 0 <= i < j < |journal| ==> journal[i].stamp != journal[j].stamp && journal[i].tag != journal[j].tag
  }

  lemma MigrateApplies(c: Committed, rows: seq<Row>, stamp: int)
    requires FilesPresent(c)
    ensures IsApplied(Migrate(c, rows), stamp) <==>
      IsApplied(rows, stamp) || exists e :: e in c.journal && e.stamp == stamp && (rows == [] || stamp > Newest(rows))
  {
    var added := RowsAdded(c, rows, c.journal);
    var after := Migrate(c, rows);
    if IsApplied(rows, stamp) {
      var i :| 0 <= i < |rows| && rows[i].createdAt == stamp;
      assert after[i].createdAt == stamp;
    }
    if e :| e in c.journal && e.stamp == stamp && (rows == [] || stamp > Newest(rows)) {
      var i :| 0 <= i < |added| && added[i] == Row(c.files[e.tag], e.stamp);
      assert after[|rows| + i].createdAt == stamp;
    }
    if IsApplied(after, stamp) && !IsApplied(rows, stamp) {
      var i :| 0 <= i < |after| && after[i].createdAt == stamp;
      assert i >= |rows| && added[i - |rows|] in added;
    }
  }

  lemma {:induction false} FindsOnly(journal: seq<Entry>, e: Entry)
    requires Distinct(journal) && e in journal
    ensures FindEntry(journal, e.tag) == Some(e)
  {
    if journal[0] != e {
      assert e in journal[1..];
      var i :| 1 <= i < |journal| && journal[i] == e;
      FindsOnly(journal[1..], e);
    }
  }

  /** An entry the history accounts for: recorded, or replaced by a recorded and verified forward. */
  predicate Accounted(c: Committed, rows: seq<Row>, e: Entry) {
    || IsApplied(rows, e.stamp)
    || (FindSupersession(c.supersessions, e.tag).Some?
        && FindSupersession(c.supersessions, e.tag).value.original.stamp == e.stamp
        && VerdictOf(c, FindSupersession(c.supersessions, e.tag).value, rows).Applied?)
  }

  /** Both migrations are in the journal as pinned, the replacement later, and their files are the audited ones. */
  predicate PinsHold(c: Committed, s: Supersession) {
    && Entry(s.original.tag, s.original.stamp) in c.journal && Entry(s.forward.tag, s.forward.stamp) in c.journal
    && s.original.stamp < s.forward.stamp
    && s.original.tag in c.files && c.files[s.original.tag] == s.original.hash
    && s.forward.tag in c.files && c.files[s.forward.tag] == s.forward.hash
  }

  lemma FindsExactlyWhen(journal: seq<Entry>, tag: string, stamp: int)
    requires Distinct(journal)
    ensures FindEntry(journal, tag) == Some(Entry(tag, stamp)) <==> Entry(tag, stamp) in journal
  {
    if Entry(tag, stamp) in journal {
      FindsOnly(journal, Entry(tag, stamp));
    }
  }

  /**
   * A replacement counts as applied exactly if all that is pinned about it holds and the history has rows with its
   * stamp, each with its hash; as not applied if it has none; and everything else is an error.
   */
  lemma AppliedExactlyWhen(c: Committed, s: Supersession, rows: seq<Row>)
    requires Distinct(c.journal)
    ensures VerdictOf(c, s, rows).Applied? <==>
              && PinsHold(c, s) && IsApplied(rows, s.forward.stamp)
              && forall r :: r in rows && r.createdAt == s.forward.stamp ==> r.hash == s.forward.hash
    ensures VerdictOf(c, s, rows).NotApplied? <==> PinsHold(c, s) && !IsApplied(rows, s.forward.stamp)
    ensures Broken(VerdictOf(c, s, rows)) <==> !VerdictOf(c, s, rows).Applied? && !VerdictOf(c, s, rows).NotApplied?
  {
    FindsExactlyWhen(c.journal, s.original.tag, s.original.stamp);
    FindsExactlyWhen(c.journal, s.forward.tag, s.forward.stamp);
    hide FindEntry;
    forall r | r in rows && r.createdAt == s.forward.stamp && VerdictOf(c, s, rows).Applied?
      ensures r.hash == s.forward.hash
    {
      var i :| 0 <= i < |rows| && rows[i] == r;
      assert rows[i].createdAt == s.forward.stamp;
    }
    forall i | 0 <= i < |rows| ensures rows[i] in rows {
    }
  }

  /** A supersession the guard lets through on a promise is applied, and verified, by the migrator. */
  lemma PromisedIsApplied(c: Committed, rows: seq<Row>, s: Supersession)
    requires Distinct(c.journal) && FilesPresent(c) && rows != []
    requires VerdictOf(c, s, rows).Applied? || (VerdictOf(c, s, rows).NotApplied? && s.forward.stamp > Newest(rows))
    ensures VerdictOf(c, s, Migrate(c, rows)).Applied?
  {
    hide RowsAdded, Newest, FindEntry;
    var after := Migrate(c, rows);
    var added := RowsAdded(c, rows, c.journal);
    var replacement := FindEntry(c.journal, s.forward.tag).value;
    MigrateApplies(c, rows, s.forward.stamp);
    forall i | 0 <= i < |after| && after[i].createdAt == s.forward.stamp ensures after[i].hash == s.forward.hash {
      if i >= |rows| {
        assert after[i] == added[i - |rows|] && added[i - |rows|] in added;
        var e :| e in c.journal && after[i] == Row(c.files[e.tag], e.stamp);
        assert e == replacement;
      }
    }
  }

  /** A supersession the guard does not let through is not applied afterwards either. */
  lemma UnpromisedStaysOut(c: Committed, rows: seq<Row>, s: Supersession)
    requires FilesPresent(c) && rows != []
    requires VerdictOf(c, s, rows).NotApplied? && s.forward.stamp <= Newest(rows)
    ensures !VerdictOf(c, s, Migrate(c, rows)).Applied?
  {
    MigrateApplies(c, rows, s.forward.stamp);
  }

  /** The guard lists exactly the entries that migrating would leave unaccounted for. */
  lemma SkippedExactlyWhen(c: Committed, rows: seq<Row>, e: Entry)
    requires Distinct(c.journal) && FilesPresent(c) && rows != [] && e in c.journal
    requires !Judge(c, rows, e).Breaks?
    ensures Judge(c, rows, e).Skipped? <==> !Accounted(c, Migrate(c, rows), e)
  {
    MigrateApplies(c, rows, e.stamp);
    FindsOnly(c.journal, e);
    forall other | other in c.journal && other.stamp == e.stamp ensures other == e {
    }
    var found := FindSupersession(c.supersessions, e.tag);
    if found.Some? && e.stamp <= Newest(rows) && !IsApplied(rows, e.stamp) {
      var s := found.value;
      if VerdictOf(c, s, rows).NotApplied? && s.forward.stamp <= Newest(rows) {
        UnpromisedStaysOut(c, rows, s);
      } else {
        PromisedIsApplied(c, rows, s);
      }
    }
  }

  // ---------------------------------------------------------------- the count

  /** The supersessions that stand in for a missing row, and nothing if checking one of them throws. */
  function Counted(c: Committed, rows: seq<Row>, table: seq<Supersession>): nat {
    if table == [] then 0
    else
      var s := table[|table| - 1];
      Counted(c, rows, table[..|table| - 1])
      + if !IsApplied(rows, s.original.stamp) && VerdictOf(c, s, rows).Applied? then 1 else 0
  }

  predicate CountThrows(c: Committed, rows: seq<Row>) {
    exists k :: 0 <= k < |c.supersessions| && Unfit(c, rows, c.supersessions[k])
  }

  predicate Unfit(c: Committed, rows: seq<Row>, s: Supersession) {
    !IsApplied(rows, s.original.stamp) && Broken(VerdictOf(c, s, rows))
  }

  method CountVerifiedSupersededMigrations(c: Committed, rows: seq<Row>) returns (r: Option<nat>)
    ensures r == if CountThrows(c, rows) then None else Some(Counted(c, rows, c.supersessions))
  {
    hide VerdictOf, IsApplied, Broken;
    var count: nat := 0;
    for k := 0 to |c.supersessions|
      invariant forall j :: 0 <= j < k ==> !Unfit(c, rows, c.supersessions[j])
      invariant count == Counted(c, rows, c.supersessions[..k])
    {
      var supersession := c.supersessions[k];
      assert c.supersessions[..k + 1][..k] == c.supersessions[..k];
      if !IsApplied(rows, supersession.original.stamp) {
        var verdict := VerdictOf(c, supersession, rows);
        if Broken(verdict) {
          assert Unfit(c, rows, supersession);
          return None;
        }
        if verdict.Applied? {
          count := count + 1;
        }
      }
    }
    assert c.supersessions[..|c.supersessions|] == c.supersessions;
    r := Some(count);
  }

  function Stamps(journal: seq<Entry>): (r: set<int>)
    ensures forall t :: t in r <==> exists i :: 0 <= i < |journal| && journal[i].stamp == t
  {
    if journal == [] then {} else Stamps(journal[..|journal| - 1]) + {journal[|journal| - 1].stamp}
  }

  lemma {:induction false} StampsDistinct(journal: seq<Entry>)
    requires Distinct(journal)
    ensures |Stamps(journal)| == |journal|
  {
    if journal != [] {
      StampsDistinct(journal[..|journal| - 1]);
    }
  }

  /** Each row accounts for one stamp, each counted supersession for one more. */
  lemma {:induction false} RowsCover(rows: seq<Row>, stamps: set<int>)
    requires forall t :: t in stamps ==> IsApplied(rows, t)
    ensures |stamps| <= |rows|
  {
    if rows == [] {
      forall t ensures t !in stamps {
        assert !IsApplied(rows, t);
      }
    } else {
      var front, last := rows[..|rows| - 1], rows[|rows| - 1];
      forall t | t in stamps - {last.createdAt} ensures IsApplied(front, t) {
        var i :| 0 <= i < |rows| && rows[i].createdAt == t;
        assert front[i].createdAt == t;
      }
      RowsCover(front, stamps - {last.createdAt});
      if last.createdAt in stamps {
        assert |stamps - {last.createdAt}| == |stamps| - 1;
      } else {
        assert stamps - {last.createdAt} == stamps;
      }
    }
  }

  predicate StandsIn(c: Committed, rows: seq<Row>, s: Supersession, stamp: int) {
    s.original.stamp == stamp && !IsApplied(rows, stamp) && VerdictOf(c, s, rows).Applied?
  }

  lemma {:induction false} CountedCover(c: Committed, rows: seq<Row>, table: seq<Supersession>, stamps: set<int>)
    requires forall t :: t in stamps ==> exists s :: s in table && StandsIn(c, rows, s, t)
    ensures |stamps| <= Counted(c, rows, table)
  {
    hide VerdictOf, IsApplied;
    if table == [] {
      forall t ensures t !in stamps {
        assert forall s :: s !in table;
      }
    } else {
      var front, last := table[..|table| - 1], table[|table| - 1];
      var stamp := last.original.stamp;
      if StandsIn(c, rows, last, stamp) {
        forall t | t in stamps - {stamp} ensures exists s :: s in front && StandsIn(c, rows, s, t) {
          var s :| s in table && StandsIn(c, rows, s, t);
          assert s in front;
        }
        CountedCover(c, rows, front, stamps - {stamp});
        if stamp in stamps {
          assert |stamps - {stamp}| == |stamps| - 1;
        } else {
          assert stamps - {stamp} == stamps;
        }
      } else {
        forall t | t in stamps ensures exists s :: s in front && StandsIn(c, rows, s, t) {
          var s :| s in table && StandsIn(c, rows, s, t);
          assert s != last;
          assert s in front;
        }
        CountedCover(c, rows, front, stamps);
      }
    }
  }

  /** A history that accounts for every entry never falls short of the expected count. */
  lemma AccountedIsEnough(c: Committed, rows: seq<Row>)
    requires Distinct(c.journal)
    requires forall e :: e in c.journal ==> Accounted(c, rows, e)
    ensures |rows| >= |c.journal| - Counted(c, rows, c.supersessions)
  {
    hide VerdictOf, IsApplied, Counted, Stamps, FindSupersession;
    var all := Stamps(c.journal);
    var recorded := set t | t in all && IsApplied(rows, t);
    StampsDistinct(c.journal);
    RowsCover(rows, recorded);
    forall t | t in all - recorded ensures exists s :: s in c.supersessions && StandsIn(c, rows, s, t) {
      var i :| 0 <= i < |c.journal| && c.journal[i].stamp == t;
      var e := c.journal[i];
      assert e in c.journal && Accounted(c, rows, e);
      assert !IsApplied(rows, t);
      var s := FindSupersession(c.supersessions, e.tag).value;
      assert StandsIn(c, rows, s, t);
    }
    CountedCover(c, rows, c.supersessions, all - recorded);
    PartsAddUp(all, recorded);
  }

  lemma PartsAddUp(all: set<int>, part: set<int>)
    requires part <= all
    ensures |all| == |part| + |all - part|
  {
    assert all == part + (all - part);
  }

  /** What the schema check says about the number of rows: nothing against a history that accounts for every entry. */
  method CountIsBelow(c: Committed, rows: seq<Row>) returns (r: Option<bool>)
    ensures r == if CountThrows(c, rows) then None else Some(|rows| < |c.journal| - Counted(c, rows, c.supersessions))
    ensures Distinct(c.journal) && (forall e :: e in c.journal ==> Accounted(c, rows, e)) ==> r != Some(true)
  {
    hide Accounted, Counted, VerdictOf;
    var superseded := CountVerifiedSupersededMigrations(c, rows);
    if superseded.None? {
      return None;
    }
    if Distinct(c.journal) && forall e :: e in c.journal ==> Accounted(c, rows, e) {
      AccountedIsEnough(c, rows);
    }
    r := Some(|rows| < |c.journal| - superseded.value);
  }

  /** Each exception names a different original, one that is in the journal under the pinned stamp. */
  predicate Pinned(c: Committed) {
    forall i :: 0 <= i < |c.supersessions| ==>
      var s := c.supersessions[i];
      && Entry(s.original.tag, s.original.stamp) in c.journal
      && FindSupersession(c.supersessions, s.original.tag) == Some(s)
  }

  /** Where the guard passes, migrating accounts for every entry, and the schema check's count passes. */
  lemma GuardedCountPasses(c: Committed, rows: seq<Row>)
    requires Distinct(c.journal) && FilesPresent(c)
    requires rows != [] ==> forall k :: 0 <= k < |c.journal| ==> Judge(c, rows, c.journal[k]).Fine?
    ensures var after := Migrate(c, rows);
      && (forall e :: e in c.journal ==> Accounted(c, after, e))
      && (Pinned(c) ==> !CountThrows(c, after))
      && |after| >= |c.journal| - Counted(c, after, c.supersessions)
  {
    hide VerdictOf, Newest, RowsAdded, Counted;
    var after := Migrate(c, rows);
    forall e | e in c.journal ensures Accounted(c, after, e) {
      if rows == [] {
        MigrateApplies(c, rows, e.stamp);
      } else {
        assert Judge(c, rows, e).Fine?;
        SkippedExactlyWhen(c, rows, e);
      }
    }
    AccountedIsEnough(c, after);
    forall k | 0 <= k < |c.supersessions| && Pinned(c) ensures !Unfit(c, after, c.supersessions[k]) {
      var s := c.supersessions[k];
      assert Accounted(c, after, Entry(s.original.tag, s.original.stamp));
    }
  }

  /** The guard has nothing against the history. */
  predicate AllFine(c: Committed, rows: seq<Row>) {
    rows != [] ==> forall k :: 0 <= k < |c.journal| ==> Judge(c, rows, c.journal[k]).Fine?
  }

  /**
   * A release: the guard, then the migrator, whose transaction `commits` or is rolled back.  A refusal,
   * a throw and a rollback leave the history as it was.
   */
  method RunMigrations(c: Committed, rows: seq<Row>, commits: bool) returns (r: Outcome, after: seq<Row>)
    ensures !r.Passes? ==> after == rows
    ensures r.Passes? ==> commits && FilesPresent(c) && after == Migrate(c, rows)
    ensures !commits || !FilesPresent(c) ==> r.Refuses? || r.Throws?
    ensures commits && FilesPresent(c) && AllFine(c, rows) ==> r.Passes?
    ensures r.Passes? && Distinct(c.journal) ==>
              && (forall e :: e in c.journal ==> Accounted(c, after, e))
              && |after| >= |c.journal| - Counted(c, after, c.supersessions)
  {
    hide Accounted, Counted, Migrate, VerdictOf;
    after := rows;
    r := AssertNoSkippedMigrations(c, rows);
    assert r.Refuses? ==> r.tags[0] in r.tags;
    if r.Passes? {
      if !FilesPresent(c) || !commits {
        return Throws, rows;
      }
      after := Migrate(c, rows);
      if Distinct(c.journal) {
        GuardedCountPasses(c, rows);
      }
    }
  }
}
