/** Looking for a newer release at most once a day, and saying so at most once. */
module UpdateCheck {
  import opened Basics
  import opened Numerals
  import opened ReleaseVersions

  /** Instants, in any unit; `day` sends an instant to its local calendar day. */
  type Instant = int

  type Calendar = Instant -> int

  /** The record of the last attempt, or bytes that cannot be read as one. */
  datatype Stored = Illegible | Attempt(checkedAt: Instant, latest: string, reason: string)

  /** How writing the record ends; short of success the file may hold anything. */
  datatype Writing = Done | Fails(left: Stored) | Dies(left: Stored)

  datatype Status = Unavailable | UpToDate | UpdateAvailable

  datatype Result = Result(status: Status, latest: string, checkedAt: Option<Instant>, cached: bool,
      shouldPrompt: bool, reason: string)

  /** What one call meets: the lock, the clock, the first write, the listing, and the second write. */
  datatype Call = Call(locks: bool, now: Instant, first: Writing, diesFetching: bool, fetched: Option<string>,
      second: Writing)

  const INCOMPLETE := "release_check_incomplete"
  const FAILED := "release_check_failed"
  const NO_STORAGE := "storage_unavailable"
  const IN_PROGRESS := "check_in_progress_or_storage_unavailable"

  predicate Fresh(day: Calendar, stored: Stored, now: Instant) {
    stored.Attempt? && now >= stored.checkedAt && day(stored.checkedAt) == day(now)
  }

  function Bare(current: string): string {
    if |current| > 0 && current[0] == 'v' then current[1..] else current
  }

  /** One `v` in front is no part of a version. */
  lemma BareExactlyWhen(s: string)
    ensures Bare("v" + s) == s
    ensures Bare(s) == s <==> !("v" <= s)
  {
    assert ("v" + s)[1..] == s;
  }

  /** A record is worth a prompt: a finished attempt that found a release above the current version. */
  predicate Newer(current: string, saved: Stored) {
    && saved.Attempt? && saved.reason == ""
    && ParseVersion(Bare(current)).Some? && ParseVersion(saved.latest).Some?
    && ParseVersion(Bare(current)).value.Less(ParseVersion(saved.latest).value)
  }

  /** A finished attempt, with both versions readable. */
  predicate Comparable(current: string, saved: Stored) {
    saved.Attempt? && saved.reason == "" && ParseVersion(Bare(current)).Some? && ParseVersion(saved.latest).Some?
  }

  /** A result without a comparison, and why. */
  predicate SaysWhy(r: Result, checkedAt: Option<Instant>, reason: string) {
    && r.status.Unavailable? && r.latest == "" && !r.cached && !r.shouldPrompt
    && r.checkedAt == checkedAt && r.reason == reason
  }

  function ResultFor(current: string, saved: Stored, cached: bool): (r: Result)
    requires saved.Attempt?
    ensures r.shouldPrompt <==> Newer(current, saved) && !cached
    ensures r.status.UpdateAvailable? <==> Newer(current, saved)
    ensures r.status.Unavailable? <==> !Comparable(current, saved)
    ensures r.latest == saved.latest && r.checkedAt == Some(saved.checkedAt)
    ensures r.cached == cached && r.reason == saved.reason
  {
    var result := Result(Unavailable, saved.latest, Some(saved.checkedAt), cached, false, saved.reason);
    var cur, latest := ParseVersion(Bare(current)), ParseVersion(saved.latest);
    if saved.reason != "" || cur.None? || latest.None? then result
    else if cur.value.Less(latest.value) then result.(status := UpdateAvailable, shouldPrompt := !cached)
    else result.(status := UpToDate)
  }

  function Left(before: Stored, writing: Writing, record: Stored): Stored {
    match writing
    case Done => record
    case Fails(left) => left
    case Dies(left) => left
  }

  function Finished(c: Call): Stored {
    match c.fetched
    case Some(latest) => Attempt(c.now, latest, "")
    case None => Attempt(c.now, "", FAILED)
  }

  /** The file after a call. */
  function After(day: Calendar, stored: Stored, c: Call): Stored {
    if !c.locks || Fresh(day, stored, c.now) then stored
    else
      var started := Attempt(c.now, "", INCOMPLETE);
      if !c.first.Done? then Left(stored, c.first, started)
      else if c.diesFetching then started
      else Left(started, c.second, Finished(c))
  }

  /** Whether a call comes back and asks for a prompt. */
  predicate Prompts(day: Calendar, current: string, stored: Stored, c: Call) {
    && c.locks && !Fresh(day, stored, c.now)
    && c.first.Done? && !c.diesFetching && c.second.Done?
    && Newer(current, Finished(c))
  }

  class Checker {
    const current: string
    const day: Calendar
    var file: Stored

    constructor (current: string, day: Calendar, file: Stored)
      ensures this.current == current && this.day == day && this.file == file
    {
      this.current, this.day, this.file := current, day, file;
    }

    method Save(record: Stored, writing: Writing) returns (alive: bool, ok: bool)
      modifies this
      ensures file == Left(old(file), writing, record)
      ensures alive == !writing.Dies? && ok == writing.Done?
    {
      match writing
      case Done => file := record; alive, ok := true, true;
      case Fails(left) => file := left; alive, ok := true, false;
      case Dies(left) => file := left; alive, ok := false, false;
    }

    /** One call; nothing comes back from a process that dies on the way. */
    method Check(c: Call) returns (r: Option<Result>)
      modifies this
      ensures file == After(day, old(file), c)
      ensures r.Some? && r.value.shouldPrompt <==> Prompts(day, current, old(file), c)
      ensures r.None? <==> c.locks && !Fresh(day, old(file), c.now)
                           && (c.first.Dies? || (c.first.Done? && (c.diesFetching || c.second.Dies?)))
      ensures r.Some? && c.locks && Fresh(day, old(file), c.now) ==> r.value == ResultFor(current, old(file), true)
      ensures r.Some? && !c.locks ==> SaysWhy(r.value, None, IN_PROGRESS)
      ensures r.Some? && c.locks && !Fresh(day, old(file), c.now) && c.first.Fails? ==>
                SaysWhy(r.value, None, NO_STORAGE)
      ensures r.Some? && c.locks && !Fresh(day, old(file), c.now) && c.first.Done? && c.second.Fails? ==>
                SaysWhy(r.value, Some(c.now), NO_STORAGE)
      ensures r.Some? && c.locks && !Fresh(day, old(file), c.now) && c.first.Done? && c.second.Done? ==>
                r.value == ResultFor(current, Finished(c), false)
      ensures r.Some? && r.value.cached ==> c.locks && Fresh(day, old(file), c.now)
    {
      var result := Result(Unavailable, "", None, false, false, "");
      if !c.locks {
        return Some(result.(reason := IN_PROGRESS));
      }
      if Fresh(day, file, c.now) {
        return Some(ResultFor(current, file, true));
      }
      var saved := Attempt(c.now, "", INCOMPLETE);
      var alive, ok := Save(saved, c.first);
      if !alive {
        return None;
      }
      if !ok {
        return Some(result.(reason := NO_STORAGE));
      }
      if c.diesFetching {
        return None;
      }
      if c.fetched.Some? {
        saved := Attempt(c.now, c.fetched.value, "");
      } else {
        saved := Attempt(c.now, "", FAILED);
      }
      alive, ok := Save(saved, c.second);
      if !alive {
        return None;
      }
      if !ok {
        return Some(result.(checkedAt := Some(c.now), reason := NO_STORAGE));
      }
      r := Some(ResultFor(current, saved, false));
    }
  }

  // ---------------------------------------------------------------- whole runs

  /** The file after some calls; processes hold the lock, so calls come one after the other. */
  function Run(day: Calendar, stored: Stored, calls: seq<Call>): Stored {
    if calls == [] then stored
    else After(day, Run(day, stored, calls[..|calls| - 1]), calls[|calls| - 1])
  }

  /** Call `k` of a run asks for a prompt; each process may be another version. */
  predicate PromptsAt(day: Calendar, stored: Stored, calls: seq<Call>, currents: seq<string>, k: nat)
    requires |currents| == |calls| && k < |calls|
  {
    Prompts(day, currents[k], Run(day, stored, calls[..k]), calls[k])
  }

  /** Clocks never go back from one call to the next, and days follow the clock. */
  ghost predicate Steady(day: Calendar, calls: seq<Call>) {
    && (forall s: Instant, t: Instant :: s <= t ==> day(s) <= day(t))
    && forall i, j :: 0 <= i < j < |calls| ==> calls[i].now <= calls[j].now
  }

  /** A call that asks for a prompt leaves the record that keeps later calls of that day quiet. */
  lemma PromptLeavesRecord(day: Calendar, current: string, stored: Stored, c: Call, now: Instant)
    requires Prompts(day, current, stored, c)
    ensures After(day, stored, c) == Finished(c)
    ensures c.now <= now && day(now) == day(c.now) ==> Fresh(day, Finished(c), now)
  {
  }

  /** After a prompt the record of that attempt stays for the rest of the day. */
  lemma {:induction false} RecordStays(day: Calendar, stored: Stored, calls: seq<Call>, currents: seq<string>,
      k: nat, m: nat)
    requires |currents| == |calls| && k < m <= |calls|
    requires Steady(day, calls) && PromptsAt(day, stored, calls, currents, k)
    requires forall i :: k <= i < m ==> day(calls[i].now) == day(calls[k].now)
    ensures Run(day, stored, calls[..m]) == Finished(calls[k])
  {
    hide Prompts, Fresh, Finished;
    var last := m - 1;
    assert calls[..m][..last] == calls[..last];
    assert Run(day, stored, calls[..m]) == After(day, Run(day, stored, calls[..last]), calls[last]);
    hide After, Run;
    PromptLeavesRecord(day, currents[k], Run(day, stored, calls[..k]), calls[k], calls[last].now);
    if last > k {
      RecordStays(day, stored, calls, currents, k, last);
      QuietCall(day, Finished(calls[k]), calls[last]);
    }
  }

  lemma QuietCall(day: Calendar, stored: Stored, c: Call)
    requires Fresh(day, stored, c.now)
    ensures After(day, stored, c) == stored && forall current :: !Prompts(day, current, stored, c)
  {
  }

  /** In every run, with crashes and failed writes anywhere, no two calls on one day ask for a prompt. */
  lemma OncePerDay(day: Calendar, stored: Stored, calls: seq<Call>, currents: seq<string>, j: nat, k: nat)
    requires |currents| == |calls| && j < k < |calls| && Steady(day, calls)
    requires PromptsAt(day, stored, calls, currents, j) && PromptsAt(day, stored, calls, currents, k)
    ensures day(calls[j].now) < day(calls[k].now)
  {
    hide Prompts, Fresh, After, Run;
    if day(calls[j].now) == day(calls[k].now) {
      RecordStays(day, stored, calls, currents, j, k);
      PromptLeavesRecord(day, currents[j], Run(day, stored, calls[..j]), calls[j], calls[k].now);
      QuietCall(day, Finished(calls[j]), calls[k]);
    }
  }

  // ---------------------------------------------------------------- clocks that go back

  /** Between two calls of a run some clock reading is behind an earlier one. */
  predicate GoesBack(calls: seq<Call>, j: nat, k: nat)
    requires j <= k < |calls|
  {
    exists a, b :: j <= a < b <= k && calls[b].now < calls[a].now
  }

  /** Two prompts on one day mean that the clock went back between them, also over other days. */
  lemma TwoPromptsMeanGoingBack(day: Calendar, stored: Stored, calls: seq<Call>, currents: seq<string>, j: nat, k: nat)
    requires |currents| == |calls| && j < k < |calls|
    requires forall s: Instant, t: Instant :: s <= t ==> day(s) <= day(t)
    requires PromptsAt(day, stored, calls, currents, j) && PromptsAt(day, stored, calls, currents, k)
    requires day(calls[j].now) == day(calls[k].now)
    ensures GoesBack(calls, j, k)
  {
    hide Prompts, Fresh, After, Run;
    if !GoesBack(calls, j, k) {
      var start := Run(day, stored, calls[..j]);
      var part, versions := calls[j..k + 1], currents[j..k + 1];
      forall a, b | 0 <= a < b < |part| ensures part[a].now <= part[b].now {
        assert part[a] == calls[j + a] && part[b] == calls[j + b];
      }
      assert part[..0] == [] && part[..k - j] == calls[j..k];
      RunsOn(day, stored, calls, j, k);
      NoCalls(day, start);
      OncePerDay(day, start, part, versions, 0, k - j);
    }
  }

  lemma NoCalls(day: Calendar, stored: Stored)
    ensures Run(day, stored, []) == stored
  {
  }

  lemma {:induction false} RunsOn(day: Calendar, stored: Stored, calls: seq<Call>, j: nat, k: nat)
    requires j <= k <= |calls|
    ensures Run(day, stored, calls[..k]) == Run(day, Run(day, stored, calls[..j]), calls[j..k])
    decreases k
  {
    hide After;
    if j == k {
      assert calls[j..k] == [];
    } else {
      RunsOn(day, stored, calls, j, k - 1);
      assert calls[..k][..k - 1] == calls[..k - 1];
      assert calls[j..k][..k - 1 - j] == calls[j..k - 1];
    }
  }

  /**
   * After a prompt, the next call, otherwise healthy and on the same day, asks again exactly when its clock is
   * behind.
   */
  lemma AsksAgainExactlyWhen(day: Calendar, current: string, stored: Stored, c: Call, again: Call)
    requires Prompts(day, current, stored, c) && day(again.now) == day(c.now)
    requires again.locks && again.first.Done? && !again.diesFetching && again.second.Done?
    requires Newer(current, Finished(again))
    ensures Prompts(day, current, After(day, stored, c), again) <==> again.now < c.now
  {
    assert Newer(current, Finished(c));
  }

  /**
   * All prompts are on different days, in all runs when clocks may go `back`, and otherwise in those where
   * they do not.
   */
  ghost predicate AlwaysOnce(day: Calendar, back: bool) {
    forall stored: Stored, calls: seq<Call>, currents: seq<string>, j: nat, k: nat ::
      j < k < |calls| && |currents| == |calls| && (back || Steady(day, calls))
      && PromptsAt(day, stored, calls, currents, j) && PromptsAt(day, stored, calls, currents, k) ==>
        day(calls[j].now) < day(calls[k].now)
  }

  /** Two calls one instant apart, the later one with the earlier reading, both ask. */
  lemma AsksTwice(day: Calendar) returns (calls: seq<Call>, currents: seq<string>)
    ensures |calls| == |currents| == 2 && calls[0].now == 1 && calls[1].now == 0
    ensures PromptsAt(day, Illegible, calls, currents, 0) && PromptsAt(day, Illegible, calls, currents, 1)
  {
    var older, newer := Version(1, 0, 0), Version(1, 0, 1);
    var late := Call(true, 1, Done, false, Some(newer.ToString()), Done);
    var early := late.(now := 0);
    calls, currents := [late, early], [older.ToString(), older.ToString()];
    FindsNewer(older, newer, late);
    FindsNewer(older, newer, early);
    BothAsk(day, older.ToString(), late, early);
  }

  lemma BothAsk(day: Calendar, current: string, late: Call, early: Call)
    requires late.locks && late.first.Done? && !late.diesFetching && late.second.Done? && Newer(current, Finished(late))
    requires early == late.(now := early.now) && early.now < late.now && Newer(current, Finished(early))
    ensures PromptsAt(day, Illegible, [late, early], [current, current], 0)
    ensures PromptsAt(day, Illegible, [late, early], [current, current], 1)
  {
    hide Newer;
    NoCalls(day, Illegible);
    var calls := [late, early];
    assert calls[..0] == [] && calls[..1] == [late] && [late][..0] == [];
    PromptLeavesRecord(day, current, Illegible, late, early.now);
    assert Run(day, Illegible, [late]) == Finished(late);
  }

  lemma FindsNewer(older: Version, newer: Version, c: Call)
    requires older.Fits() && newer.Fits() && older.Less(newer) && c.fetched == Some(newer.ToString())
    ensures Newer(older.ToString(), Finished(c))
  {
    VersionReadsBack(older);
    VersionReadsBack(newer);
    StartsWithDigit(older);
    hide ParseVersion, Version.ToString;
  }

  lemma StartsWithDigit(v: Version)
    ensures v.ToString() != "" && v.ToString()[0] != 'v'
  {
    assert IsDecimal(Decimal(v.major)[0]);
  }

  /** With clocks that may go back the promise fails, and without it holds. */
  lemma OnceExactlyWhenSteady(day: Calendar, back: bool)
    requires forall s: Instant, t: Instant :: s <= t ==> day(s) <= day(t)
    ensures AlwaysOnce(day, back) <==> !back
  {
    hide Prompts, Fresh, After, Run;
    if back {
      var calls, currents := AsksTwice(day);
      assert day(calls[1].now) <= day(calls[0].now);
    } else {
      forall stored: Stored, calls: seq<Call>, currents: seq<string>, j: nat, k: nat |
        j < k < |calls| && |currents| == |calls| && Steady(day, calls)
        && PromptsAt(day, stored, calls, currents, j) && PromptsAt(day, stored, calls, currents, k)
        ensures day(calls[j].now) < day(calls[k].now)
      {
        OncePerDay(day, stored, calls, currents, j, k);
      }
    }
  }
}
