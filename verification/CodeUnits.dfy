/**
 * Text as the sequence of UTF-16 code units the programs index, slice and compare.  Units are
 * plain integers: no property here needs that they stop at 0xFFFF.
 */
module CodeUnits {
  type CodeUnit = int

  type Text = seq<CodeUnit>

  const LESS: CodeUnit := 0x3C
  const GREATER: CodeUnit := 0x3E
  const SLASH: CodeUnit := 0x2F
  const SPACE: CodeUnit := 0x20

  /** The white space of a regular expression's `\s`, which is also what trimming removes. */
  predicate IsSpace(u: CodeUnit) {
    || 0x09 <= u <= 0x0D || u == 0x20 || u == 0xA0 || u == 0x1680 || 0x2000 <= u <= 0x200A
    || u == 0x2028 || u == 0x2029 || u == 0x202F || u == 0x205F || u == 0x3000 || u == 0xFEFF
  }

  /** One by one. */
  lemma SpacesAre(u: CodeUnit)
    ensures IsSpace(u) <==> u in [
      0x09, 0x0A, 0x0B, 0x0C, 0x0D, 0x20, 0xA0, 0x1680, 0x2000, 0x2001, 0x2002, 0x2003, 0x2004, 0x2005, 0x2006, 0x2007,
      0x2008, 0x2009, 0x200A, 0x2028, 0x2029, 0x202F, 0x205F, 0x3000, 0xFEFF]
  {
  }

  predicate IsLetter(u: CodeUnit) {
    0x41 <= u <= 0x5A || 0x61 <= u <= 0x7A
  }

  /** Lower case, for comparing with ASCII: besides A to Z, the Kelvin sign becomes an ASCII letter. */
  function Lower(u: CodeUnit): CodeUnit {
    if 0x41 <= u <= 0x5A then u + 0x20 else if u == 0x212A then 0x6B else u
  }

  /** Letters are what becomes a lower-case ASCII letter, but for the Kelvin sign. */
  lemma LettersLower(u: CodeUnit)
    ensures IsLetter(u) <==> u != 0x212A && 0x61 <= Lower(u) <= 0x7A
    ensures Lower(Lower(u)) == Lower(u)
  {
  }

  function LowerAll(t: Text): (r: Text)
    ensures |r| == |t| && forall i :: 0 <= i < |t| ==> r[i] == Lower(t[i])
  {
    seq(|t|, i requires 0 <= i < |t| => Lower(t[i]))
  }

  predicate AllSpace(t: Text) {
    forall i :: 0 <= i < |t| ==> IsSpace(t[i])
  }

  function TrimStart(t: Text): (r: Text)
    ensures |r| <= |t| && (r == [] || !IsSpace(r[0]))
  {
    if t == [] || !IsSpace(t[0]) then t else TrimStart(t[1..])
  }

  /** What is trimmed off is white space, and the rest stays. */
  lemma {:induction false} TrimStartIs(t: Text)
    ensures var n := |t| - |TrimStart(t)|; TrimStart(t) == t[n..] && AllSpace(t[..n])
  {
    hide IsSpace, AllSpace;
    if t != [] && IsSpace(t[0]) {
      var rest := t[1..];
      TrimStartIs(rest);
      var n := |rest| - |TrimStart(rest)|;
      assert rest[n..] == t[n + 1..];
      OneMoreSpace(t, n);
    } else {
      assert t[0..] == t;
      assert AllSpace(t[..0]) by { OneMoreSpace(t, 0); }
    }
  }

  lemma OneMoreSpace(t: Text, n: nat)
    ensures AllSpace(t[..0])
    ensures n < |t| && IsSpace(t[0]) && AllSpace(t[1..][..n]) ==> AllSpace(t[..n + 1])
  {
    hide IsSpace;
    if n < |t| {
      assert forall i :: 0 < i <= n ==> t[i] == t[1..][..n][i - 1];
    }
  }

  /** The whole of a text that came in pieces. */
  function Joined(pieces: seq<Text>): Text {
    if pieces == [] then [] else Joined(pieces[..|pieces| - 1]) + pieces[|pieces| - 1]
  }

  lemma {:induction false} TrimStartGrows(t: Text, more: Text)
    ensures TrimStart(t) <= TrimStart(t + more)
  {
    hide AllSpace, IsSpace;
    var u := t + more;
    if t == [] {
      assert TrimStart(t) == [];
    } else if IsSpace(t[0]) {
      assert u[0] == t[0] && u[1..] == t[1..] + more;
      TrimStartGrows(t[1..], more);
      assert TrimStart(t) == TrimStart(t[1..]) && TrimStart(u) == TrimStart(u[1..]);
    } else {
      assert u[0] == t[0];
      assert TrimStart(t) == t && TrimStart(u) == u;
    }
  }
}
