/** A ratchet: known offences are counted per file and rule, and the counts may only go down. */
module DesignBaseline {
  type Rules = map<string, int>

  type Counts = map<string, Rules>

  datatype Regression = Regression(file: string, rule: string, allowed: int, actual: int)

  predicate Has(c: Counts, file: string, rule: string) {
    file in c && rule in c[file]
  }

  function Count(c: Counts, file: string, rule: string): int {
    if Has(c, file, rule) then c[file][rule] else 0
  }

  /** No empty files and no counts that allow nothing. */
  predicate Tidy(c: Counts) {
    forall f :: f in c ==> c[f] != map[] && forall r :: r in c[f] ==> c[f][r] > 0
  }

  /** The method below builds the set in two loops; the order of a report is of no consequence. */
  ghost predicate IsRegression(current: Counts, baseline: Counts, x: Regression) {
    && Has(current, x.file, x.rule)
    && x.actual == current[x.file][x.rule] && x.allowed == Count(baseline, x.file, x.rule) && x.actual > x.allowed
  }

  method FindRegressions(current: Counts, baseline: Counts) returns (found: set<Regression>)
    ensures forall x :: x in found <==> IsRegression(current, baseline, x)
  {
    found := {};
    var files := current.Keys;
    while files != {}
      invariant files <= current.Keys
      invariant forall x :: x in found <==> IsRegression(current, baseline, x) && x.file !in files
      decreases |files|
    {
      var file :| file in files;
      var rules := current[file].Keys;
      while rules != {}
        invariant rules <= current[file].Keys
        invariant forall x :: x in found <==>
          IsRegression(current, baseline, x) && (x.file !in files || (x.file == file && x.rule !in rules))
        decreases |rules|
      {
        var rule :| rule in rules;
        var actual, allowed := current[file][rule], Count(baseline, file, rule);
        if actual > allowed {
          found := found + {Regression(file, rule, allowed, actual)};
        }
        rules := rules - {rule};
      }
      files := files - {file};
    }
  }

  /** What is left of a known count once it has been compared with a scan. */
  function Left(current: Counts, baseline: Counts, file: string, rule: string): int {
    if !Has(baseline, file, rule) then 0
    else
      var scanned, known := Count(current, file, rule), baseline[file][rule];
      var least := if scanned < known then scanned else known;
      if least > 0 then least else 0
  }

  ghost predicate IsTightened(current: Counts, baseline: Counts, next: Counts) {
    Tidy(next) && forall f, r :: Count(next, f, r) == Left(current, baseline, f, r)
  }

  method TightenRules(scanned: Counts, file: string, known: Rules) returns (kept: Rules)
    ensures forall r :: r in kept <==> r in known && known[r] > 0 && Count(scanned, file, r) > 0
    ensures forall r :: r in kept ==> kept[r] == Left(scanned, map[file := known], file, r)
  {
    kept := map[];
    var rules := known.Keys;
    while rules != {}
      invariant rules <= known.Keys
      invariant forall r :: r in kept <==> r in known && r !in rules && known[r] > 0 && Count(scanned, file, r) > 0
      invariant forall r :: r in kept ==> kept[r] == Left(scanned, map[file := known], file, r)
      decreases |rules|
    {
      var rule :| rule in rules;
      var actual := Count(scanned, file, rule);
      var count := if actual < known[rule] then actual else known[rule];
      if count > 0 {
        kept := kept[rule := count];
      }
      rules := rules - {rule};
    }
  }

  method TightenBaseline(current: Counts, baseline: Counts) returns (next: Counts)
    ensures IsTightened(current, baseline, next) && next == Tightened(current, baseline)
  {
    next := map[];
    var files := baseline.Keys;
    while files != {}
      invariant files <= baseline.Keys && files !! next.Keys && Tidy(next)
      invariant forall f, r :: Count(next, f, r) == if f in files then 0 else Left(current, baseline, f, r)
      decreases |files|
    {
      var file :| file in files;
      var kept := TightenRules(current, file, baseline[file]);
      if kept != map[] {
        next := next[file := kept];
      }
      files := files - {file};
    }
    TightenedIsTheOne(current, baseline, next);
  }

  lemma TidyCounts(a: Counts, b: Counts)
    requires Tidy(a) && Tidy(b) && forall f, r :: Count(a, f, r) == Count(b, f, r)
    ensures a == b
  {
    forall f ensures f in a <==> f in b {
      if f in a {
        var r :| r in a[f];
        assert Count(a, f, r) == Count(b, f, r);
      }
      if f in b {
        var r :| r in b[f];
        assert Count(a, f, r) == Count(b, f, r);
      }
    }
    forall f | f in a ensures a[f] == b[f] {
      forall r ensures r in a[f] <==> r in b[f] {
        assert Count(a, f, r) == Count(b, f, r);
      }
      forall r | r in a[f] ensures a[f][r] == b[f][r] {
        assert Count(a, f, r) == Count(b, f, r);
      }
    }
  }

  function Kept(current: Counts, baseline: Counts, file: string): Rules
    requires file in baseline
  {
    map r | r in baseline[file] && Left(current, baseline, file, r) > 0 :: Left(current, baseline, file, r)
  }

  /** The one tightened baseline. */
  function Tightened(current: Counts, baseline: Counts): (next: Counts)
    ensures Tidy(next)
  {
    map f | f in baseline && Kept(current, baseline, f) != map[] :: Kept(current, baseline, f)
  }

  lemma TightenedIs(current: Counts, baseline: Counts)
    ensures IsTightened(current, baseline, Tightened(current, baseline))
  {
    var next := Tightened(current, baseline);
    forall f, r ensures Count(next, f, r) == Left(current, baseline, f, r) {
      if f in baseline {
        assert r in Kept(current, baseline, f) <==> Left(current, baseline, f, r) > 0;
      }
    }
  }

  lemma TightenedIsTheOne(current: Counts, baseline: Counts, next: Counts)
    requires IsTightened(current, baseline, next)
    ensures next == Tightened(current, baseline)
  {
    hide Tightened, Left;
    TightenedIs(current, baseline);
    forall f, r ensures Count(next, f, r) == Count(Tightened(current, baseline), f, r) {
      assert Count(next, f, r) == Left(current, baseline, f, r);
    }
    TidyCounts(next, Tightened(current, baseline));
  }

  /** The baseline after a sequence of scans, each of which tightened it. */
  function AfterScans(start: Counts, scans: seq<Counts>): Counts {
    if scans == [] then start else Tightened(scans[|scans| - 1], AfterScans(start, scans[..|scans| - 1]))
  }

  /** The least count seen, the start included. */
  function Least(start: Counts, scans: seq<Counts>, file: string, rule: string): (least: int)
    ensures least <= Count(start, file, rule)
    ensures forall i :: 0 <= i < |scans| ==> least <= Count(scans[i], file, rule)
    ensures least == Count(start, file, rule) || exists i :: 0 <= i < |scans| && least == Count(scans[i], file, rule)
  {
    if scans == [] then Count(start, file, rule)
    else
      var before, scanned := Least(start, scans[..|scans| - 1], file, rule), Count(scans[|scans| - 1], file, rule);
      if scanned < before then scanned else before
  }

  /** After any sequence of scans each count is the positive part of the least count seen. */
  lemma {:induction false} TighteningIsTheMinimum(start: Counts, scans: seq<Counts>, file: string, rule: string)
    requires scans != []
    ensures var least := Least(start, scans, file, rule);
      Count(AfterScans(start, scans), file, rule) == if least > 0 then least else 0
  {
    var front, last := scans[..|scans| - 1], scans[|scans| - 1];
    var before := AfterScans(start, front);
    TightenedIs(last, before);
    assert Count(AfterScans(start, scans), file, rule) == Left(last, before, file, rule);
    if front != [] {
      TighteningIsTheMinimum(start, front, file, rule);
    }
  }

  /** The order of scans, and repeating them, is of no consequence; and no count ever goes above the start. */
  lemma TighteningCommutes(start: Counts, scans: seq<Counts>, others: seq<Counts>)
    requires scans != [] && others != [] && forall scan :: scan in scans <==> scan in others
    ensures AfterScans(start, scans) == AfterScans(start, others)
    ensures forall f, r :: Has(AfterScans(start, scans), f, r) ==>
              Has(start, f, r) && AfterScans(start, scans)[f][r] <= start[f][r]
  {
    var a, b := AfterScans(start, scans), AfterScans(start, others);
    assert Tidy(a) && Tidy(b);
    hide AfterScans, Least, Tidy;
    forall f, r ensures Count(a, f, r) == Count(b, f, r) {
      TighteningIsTheMinimum(start, scans, f, r);
      TighteningIsTheMinimum(start, others, f, r);
      SameLeast(start, scans, others, f, r);
    }
    TidyCounts(a, b);
    forall f, r | Has(a, f, r) ensures Has(start, f, r) && a[f][r] <= start[f][r] {
      TighteningIsTheMinimum(start, scans, f, r);
      assert a[f][r] > 0 by { TidyIsPositive(a, f, r); }
    }
  }

  lemma TidyIsPositive(c: Counts, file: string, rule: string)
    requires Tidy(c) && Has(c, file, rule)
    ensures c[file][rule] > 0
  {
  }

  lemma SameLeast(start: Counts, scans: seq<Counts>, others: seq<Counts>, file: string, rule: string)
    requires forall scan :: scan in scans <==> scan in others
    ensures Least(start, scans, file, rule) == Least(start, others, file, rule)
  {
    hide Count, Least;
    NotAbove(start, scans, others, file, rule);
    NotAbove(start, others, scans, file, rule);
  }

  lemma NotAbove(start: Counts, scans: seq<Counts>, others: seq<Counts>, file: string, rule: string)
    requires forall scan :: scan in scans ==> scan in others
    ensures Least(start, others, file, rule) <= Least(start, scans, file, rule)
  {
    hide Count;
    var least := Least(start, scans, file, rule);
    if least != Count(start, file, rule) {
      var i :| 0 <= i < |scans| && least == Count(scans[i], file, rule);
      assert scans[i] in others;
      var j :| 0 <= j < |others| && others[j] == scans[i];
    }
  }

  /**
   * A scan shows the same regressions against the baseline it tightened as against the one before,
   * when nothing counted is negative.
   */
  lemma TighteningHidesNothing(current: Counts, baseline: Counts, next: Counts, x: Regression)
    requires IsTightened(current, baseline, next)
    requires Count(baseline, x.file, x.rule) >= 0 && Count(current, x.file, x.rule) >= 0
    ensures IsRegression(current, next, x) <==> IsRegression(current, baseline, x)
  {
    assert Count(next, x.file, x.rule) == Left(current, baseline, x.file, x.rule);
  }

  /**
   * In every sequence of scans each one shows, after it has tightened the baseline, the regressions it showed
   * before.
   */
  lemma NoScanLosesARegression(start: Counts, scans: seq<Counts>, k: nat, x: Regression)
    requires k < |scans|
    requires Count(start, x.file, x.rule) >= 0 && forall i :: 0 <= i < |scans| ==> Count(scans[i], x.file, x.rule) >= 0
    ensures IsRegression(scans[k], AfterScans(start, scans[..k + 1]), x)
       <==> IsRegression(scans[k], AfterScans(start, scans[..k]), x)
  {
    assert scans[..k + 1][..k] == scans[..k];
    var before := AfterScans(start, scans[..k]);
    if k > 0 {
      TighteningIsTheMinimum(start, scans[..k], x.file, x.rule);
    }
    TightenedIs(scans[k], before);
    TighteningHidesNothing(scans[k], before, Tightened(scans[k], before), x);
  }

  datatype Adoption = Adopted(counts: Counts) | UnknownRule | AlreadyThere

  predicate Mentions(c: Counts, rule: string) {
    exists f :: f in c && rule in c[f]
  }

  /** The counts with those of the rule taken from the scan, for the files not `left` to be done. */
  function Merged(current: Counts, baseline: Counts, rule: string, left: set<string>, file: string,
      other: string): int {
    if other != rule then Count(baseline, file, other) else if file in left then 0 else Count(current, file, rule)
  }

  ghost predicate IsAdopted(current: Counts, baseline: Counts, rule: string, adopted: Counts) {
    && Tidy(adopted)
    && forall f, r :: var kept := Merged(current, baseline, rule, {}, f, r); Count(adopted, f, r) == if kept > 0 then kept else 0
  }

  /**
   * The rule's counts come from the scan, every other count stays; an unknown rule or one already counted is
   * refused.
   */
  method AdoptRule(known: set<string>, current: Counts, baseline: Counts, rule: string) returns (r: Adoption)
    ensures r.UnknownRule? <==> rule !in known
    ensures r.AlreadyThere? <==> rule in known && exists f :: f in baseline && rule in baseline[f]
    ensures r.Adopted? ==> IsAdopted(current, baseline, rule, r.counts)
  {
    if rule !in known {
      return UnknownRule;
    }
    if Mentions(baseline, rule) {
      return AlreadyThere;
    }
    assert forall f :: !Has(baseline, f, rule);
    var merged := baseline;
    var files := current.Keys;
    while files != {}
      invariant files <= current.Keys
      invariant forall f, other :: Count(merged, f, other) == Merged(current, baseline, rule, files, f, other)
      decreases |files|
    {
      var file :| file in files;
      if rule in current[file] && current[file][rule] != 0 {
        var rules := if file in merged then merged[file] else map[];
        ghost var before := merged;
        merged := merged[file := rules[rule := current[file][rule]]];
        forall f, other
          ensures Count(merged, f, other)
               == if f == file && other == rule then current[file][rule] else Count(before, f, other)
        {
        }
      }
      files := files - {file};
    }
    var next := TightenBaseline(merged, merged);
    forall f, x ensures var kept := Merged(current, baseline, rule, {}, f, x); Count(next, f, x) == if kept > 0 then kept else 0 {
      assert Count(next, f, x) == Left(merged, merged, f, x);
    }
    r := Adopted(next);
  }

  /** Adopting a rule leaves none of its offences reported, and all reports of the other rules as they were. */
  lemma AdoptingSilencesOnly(current: Counts, baseline: Counts, adopted: Counts, rule: string, x: Regression)
    requires IsAdopted(current, baseline, rule, adopted)
    requires forall f, r :: Count(baseline, f, r) >= 0 && Count(current, f, r) >= 0
    ensures IsRegression(current, adopted, x) <==> x.rule != rule && IsRegression(current, baseline, x)
  {
    assert Count(current, x.file, x.rule) >= 0 && Count(baseline, x.file, x.rule) >= 0;
    var kept := Merged(current, baseline, rule, {}, x.file, x.rule);
    assert Count(adopted, x.file, x.rule) == if kept > 0 then kept else 0;
  }
}
