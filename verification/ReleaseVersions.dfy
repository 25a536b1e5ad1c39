/** Release versions: read, compared, and the highest one of a listing. */
module ReleaseVersions {
  import opened Basics
  import opened Numerals

  const LIMIT := 0x1_0000_0000_0000_0000

  datatype Version = Version(major: nat, minor: nat, patch: nat) {
    predicate Fits() {
      major < LIMIT && minor < LIMIT && patch < LIMIT
    }

    predicate Less(other: Version) {
      if major != other.major then major < other.major
      else if minor != other.minor then minor < other.minor
      else patch < other.patch
    }

    function ToString(): string {
      Decimal(major) + ("." + (Decimal(minor) + ("." + Decimal(patch))))
    }
  }

  /** The position of the first dot, or the length where there is none. */
  function FirstDot(s: string): (k: nat)
    ensures k <= |s| && (k < |s| ==> s[k] == '.')
    ensures forall i :: 0 <= i < k ==> s[i] != '.'
  {
    if s == [] || s[0] == '.' then 0 else 1 + FirstDot(s[1..])
  }

  function ParseNumber(s: string): Option<nat> {
    if IsNumeral(s) && Value(s) < LIMIT then Some(Value(s)) else None
  }

  function ParseVersion(raw: string): Option<Version> {
    var first := FirstDot(raw);
    if first == |raw| then None
    else
      var rest := raw[first + 1..];
      var second := FirstDot(rest);
      if second == |rest| then None
      else
        var major, minor, patch := ParseNumber(raw[..first]), ParseNumber(rest[..second]), ParseNumber(rest[second + 1..]);
        if major.Some? && minor.Some? && patch.Some? then Some(Version(major.value, minor.value, patch.value)) else None
  }

  /** The three numbers as one. */
  function Weight(v: Version): nat {
    v.major * (LIMIT * LIMIT) + v.minor * LIMIT + v.patch
  }

  /** Versions are ordered as their numbers are: a major outweighs every minor, a minor every patch. */
  lemma LessExactlyWhen(v: Version, w: Version)
    requires v.Fits() && w.Fits()
    ensures v.Less(w) <==> Weight(v) < Weight(w)
  {
  }

  lemma DotSplits(a: string, b: string)
    requires forall i :: 0 <= i < |a| ==> IsDecimal(a[i])
    ensures var s := a + ("." + b); FirstDot(s) == |a| && s[..|a|] == a && s[|a| + 1..] == b
  {
    var s := a + ("." + b);
    var k := FirstDot(s);
    assert s[|a|] == '.';
    assert forall i :: 0 <= i < |a| ==> s[i] == a[i] && IsDecimal(a[i]);
  }

  lemma NumberReadsBack(n: nat)
    requires n < LIMIT
    ensures ParseNumber(Decimal(n)) == Some(n)
  {
    ReadsBack(n);
  }

  /** Every version that fits is read back from its own text. */
  lemma VersionReadsBack(v: Version)
    requires v.Fits()
    ensures ParseVersion(v.ToString()) == Some(v)
  {
    hide Decimal, ParseNumber, FirstDot;
    DotSplits(Decimal(v.major), Decimal(v.minor) + ("." + Decimal(v.patch)));
    DotSplits(Decimal(v.minor), Decimal(v.patch));
    NumberReadsBack(v.major);
    NumberReadsBack(v.minor);
    NumberReadsBack(v.patch);
  }

  /** Only the one text of a version is read as that version. */
  lemma VersionWritesBack(raw: string)
    requires ParseVersion(raw).Some?
    ensures ParseVersion(raw).value.Fits() && ParseVersion(raw).value.ToString() == raw
  {
    hide Decimal, Value, IsNumeral;
    var first := FirstDot(raw);
    var rest := raw[first + 1..];
    var second := FirstDot(rest);
    WritesBack(raw[..first]);
    WritesBack(rest[..second]);
    WritesBack(rest[second + 1..]);
    assert raw == raw[..first] + ("." + rest);
    assert rest == rest[..second] + ("." + rest[second + 1..]);
  }

  // ---------------------------------------------------------------- the listing

  datatype Release = Release(tag: string, draft: bool, prerelease: bool)

  const PREFIX := "cli-v"

  const PAGES := 20

  const PAGE_SIZE := 100

  function CandidateOf(r: Release): Option<Version> {
    if r.draft || r.prerelease || !(PREFIX <= r.tag) then None else ParseVersion(r.tag[|PREFIX|..])
  }

  /** A release counts exactly if it is out, stable, and its tag is the prefix and a version. */
  lemma CandidateExactlyWhen(r: Release, v: Version)
    ensures CandidateOf(r) == Some(v) <==> !r.draft && !r.prerelease && v.Fits() && r.tag == PREFIX + v.ToString()
  {
    hide ParseVersion, Decimal;
    if v.Fits() {
      VersionReadsBack(v);
    }
    if CandidateOf(r).Some? {
      VersionWritesBack(r.tag[|PREFIX|..]);
      assert r.tag == PREFIX + r.tag[|PREFIX|..];
    }
    assert (PREFIX + v.ToString())[|PREFIX|..] == v.ToString();
  }

  predicate IsCandidate(pages: seq<Option<seq<Release>>>, v: Version) {
    exists p, i :: 0 <= p < |pages| && pages[p].Some? && 0 <= i < |pages[p].value| && CandidateOf(pages[p].value[i]) == Some(v)
  }

  /** The highest of the candidates, or none where there is no candidate. */
  predicate IsHighest(pages: seq<Option<seq<Release>>>, highest: Version, found: bool) {
    && (found ==> IsCandidate(pages, highest))
    && forall p, i :: 0 <= p < |pages| && pages[p].Some? && 0 <= i < |pages[p].value| && CandidateOf(pages[p].value[i]).Some? ==>
        found && !highest.Less(CandidateOf(pages[p].value[i]).value)
  }

  /** Where the listing ends: the first short page, when every page up to it could be read. */
  predicate EndsAt(pages: seq<Option<seq<Release>>>, last: nat) {
    && last < |pages|
    && (forall p :: 0 <= p <= last ==> pages[p].Some?)
    && (forall p :: 0 <= p < last ==> |pages[p].value| >= PAGE_SIZE)
    && |pages[last].value| < PAGE_SIZE
  }

  lemma HighestGrows(before: seq<Option<seq<Release>>>, front: seq<Release>, item: Release, highest: Version,
      found: bool)
    requires IsHighest(before + [Some(front)], highest, found)
    ensures var candidate := CandidateOf(item);
      var more := candidate.Some? && (!found || highest.Less(candidate.value));
      IsHighest(before + [Some(front + [item])], if more then candidate.value else highest, found || more)
  {
    hide CandidateOf;
    var pages, grown := before + [Some(front)], before + [Some(front + [item])];
    var candidate := CandidateOf(item);
    var more := candidate.Some? && (!found || highest.Less(candidate.value));
    var top := if more then candidate.value else highest;
    assert grown[|before|].value[|front|] == item;
    if found {
      var p, i :| 0 <= p < |pages| && pages[p].Some? && 0 <= i < |pages[p].value| && CandidateOf(pages[p].value[i]) == Some(highest);
      assert grown[p].Some? && grown[p].value[i] == pages[p].value[i];
    }
    forall p, i | 0 <= p < |grown| && grown[p].Some? && 0 <= i < |grown[p].value| && CandidateOf(grown[p].value[i]).Some?
      ensures (found || more) && !top.Less(CandidateOf(grown[p].value[i]).value)
    {
      if p < |before| || i < |front| {
        assert pages[p].Some? && pages[p].value[i] == grown[p].value[i];
      }
    }
  }

  /** The text of the highest stable release, when the listing ends and holds one; whatever the order of the listing. */
  method Latest(pages: seq<Option<seq<Release>>>) returns (r: Option<string>)
    requires |pages| == PAGES
    ensures r.Some? ==> exists last: nat, v: Version ::
              EndsAt(pages, last) && IsHighest(pages[..last + 1], v, true) && r.value == v.ToString()
    ensures r.None? ==> forall last: nat :: EndsAt(pages, last) ==> IsHighest(pages[..last + 1], Version(0, 0, 0), false)
  {
    hide CandidateOf;
    var highest, found := Version(0, 0, 0), false;
    for page := 0 to PAGES
      invariant forall p :: 0 <= p < page ==> pages[p].Some? && |pages[p].value| >= PAGE_SIZE
      invariant IsHighest(pages[..page], highest, found)
    {
      if pages[page].None? {
        return None;
      }
      var items := pages[page].value;
      assert IsHighest(pages[..page] + [Some([])], highest, found) by {
        var empty := pages[..page] + [Some([])];
        if found {
          var p, i :| 0 <= p < page && pages[..page][p].Some? && 0 <= i < |pages[..page][p].value|
            && CandidateOf(pages[..page][p].value[i]) == Some(highest);
          assert empty[p] == pages[..page][p];
        }
      }
      for k := 0 to |items|
        invariant IsHighest(pages[..page] + [Some(items[..k])], highest, found)
      {
        HighestGrows(pages[..page], items[..k], items[k], highest, found);
        assert items[..k + 1] == items[..k] + [items[k]];
        var candidate := CandidateOf(items[k]);
        if candidate.Some? && (!found || highest.Less(candidate.value)) {
          highest, found := candidate.value, true;
        }
      }
      assert items[..|items|] == items;
      assert pages[..page + 1] == pages[..page] + [Some(items)];
      if |items| < PAGE_SIZE {
        assert EndsAt(pages, page);
        if !found {
          return None;
        }
        return Some(highest.ToString());
      }
    }
    r := None;
  }
}
