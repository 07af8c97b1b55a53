/** VERSION_REGEXP of lib/pgversion.rb and what String#match does with it:

      PostgreSQL (\d+)\.(\d+).?((?:alpha|beta|rc)?\d+) on ([^,]+), compiled by ([^,]+), (\d+)-bit

    The pattern is unanchored, so the leftmost position where it matches wins, and text before
    and after the match is ignored. Instead of a regular-expression engine this module holds
    a direct matcher for this one pattern that follows the engine's backtracking order (the
    greedy (\d+) of the minor number gives back digits one at a time; `.?` tries one
    character, never a newline, before trying none), and a declarative description of the
    texts the pattern matches, `MatchText`, against which the matcher is proved sound and
    complete. Positions are indices into the searched string. */
module VersionRegexp {
  import opened Wrappers
  import opened Decimal

  // ---------------------------------------------------------------------------------------
  // What the pattern matches, declaratively

  /** Strings the groups of the pattern can capture. */
  predicate IsNumeral(s: string) {            // \d+
    |s| > 0 && AllDigits(s)
  }

  predicate IsField(s: string) {              // [^,]+
    |s| > 0 && ',' !in s
  }

  predicate Tagged(p: string, tag: string) {
    |tag| < |p| && p[..|tag|] == tag && AllDigits(p[|tag|..])
  }

  predicate IsPatch(p: string) {              // (?:alpha|beta|rc)?\d+
    IsNumeral(p) || Tagged(p, "alpha") || Tagged(p, "beta") || Tagged(p, "rc")
  }

  predicate IsSeparator(sep: string) {        // .? (the dot does not match a newline)
    |sep| <= 1 && '\n' !in sep
  }

  /** The six capture groups, in the order of the pattern. */
  datatype Groups = Groups(major: string, minor: string, patch: string,
                           host: string, compiler: string, bits: string)

  predicate WellFormed(g: Groups) {
    && IsNumeral(g.major) && IsNumeral(g.minor) && IsPatch(g.patch)
    && IsField(g.host) && IsField(g.compiler) && IsNumeral(g.bits)
  }

  /** The pieces of text joined one after the other. */
  function Concat(ps: seq<string>): string {
    if ps == [] then [] else ps[0] + Concat(ps[1..])
  }

  /** The pieces of a match up to and including the dot after the major number. */
  function HeadPieces(major: string): seq<string> {
    ["PostgreSQL ", major, "."]
  }

  /** The pieces of a match from the patch group on. */
  function TailPieces(patch: string, host: string, compiler: string, bits: string): seq<string> {
    [patch, " on ", host, ", compiled by ", compiler, ", ", bits, "-bit"]
  }

  /** The text that the pattern matches when its groups capture g and `.?` consumes sep. */
  function MatchText(g: Groups, sep: string): string {
    Concat(HeadPieces(g.major)) + (g.minor + (sep + Concat(TailPieces(g.patch, g.host, g.compiler, g.bits))))
  }

  /** s holds lit at position i. */
  predicate LitAt(s: string, i: nat, lit: string) {
    i + |lit| <= |s| && s[i..i + |lit|] == lit
  }

  /** The pattern matches s at position i with groups g and separator sep. */
  predicate MatchesAt(s: string, i: nat, g: Groups, sep: string) {
    WellFormed(g) && IsSeparator(sep) && LitAt(s, i, MatchText(g, sep))
  }

  // ---------------------------------------------------------------------------------------
  // The pattern as a list of atoms

  /** A literal text, a greedy \d+, a greedy [^,]+, or (?:alpha|beta|rc)?\d+. */
  datatype Atom = Literal(text: string) | Digits | Field | Patch

  predicate Fits(a: Atom, t: string) {
    match a
    case Literal(x) => t == x
    case Digits => IsNumeral(t)
    case Field => IsField(t)
    case Patch => IsPatch(t)
  }

  /** Each piece fits the atom at its position. */
  predicate FitAll(atoms: seq<Atom>, ts: seq<string>)
    decreases |atoms|, ts
  {
    |ts| == |atoms| && (atoms == [] || (Fits(atoms[0], ts[0]) && FitAll(atoms[1..], ts[1..])))
  }

  /** PostgreSQL (\d+)\. */
  const HeadPattern: seq<Atom> := [Literal("PostgreSQL "), Digits, Literal(".")]

  /** ((?:alpha|beta|rc)?\d+) on ([^,]+), compiled by ([^,]+), (\d+)-bit */
  const TailPattern: seq<Atom> :=
    [Patch, Literal(" on "), Field, Literal(", compiled by "), Field, Literal(", "), Digits, Literal("-bit")]

  // ---------------------------------------------------------------------------------------
  // The matcher

  /** Where a greedy \d+ that starts at i stops. */
  function DigitsEnd(s: string, i: nat): (j: nat)
    requires i <= |s|
    ensures i <= j <= |s|
    decreases |s| - i
  {
    if i < |s| && IsDigit(s[i]) then DigitsEnd(s, i + 1) else i
  }

  /** Where a greedy [^,]+ that starts at i stops. */
  function FieldEnd(s: string, i: nat): (j: nat)
    requires i <= |s|
    ensures i <= j <= |s|
    decreases |s| - i
  {
    if i < |s| && s[i] != ',' then FieldEnd(s, i + 1) else i
  }

  /** Length of the (?:alpha|beta|rc) alternative found at i; 0 when none is (the three
      start with different letters, so at most one applies). */
  function TagLength(s: string, i: nat): (n: nat)
    requires i <= |s|
    ensures i + n <= |s|
  {
    if LitAt(s, i, "alpha") then 5
    else if LitAt(s, i, "beta") then 4
    else if LitAt(s, i, "rc") then 2
    else 0
  }

  /** Where atom a, matched at i, ends. The greedy atoms take all they can and do not give
      anything back; when a tag is not followed by a digit, \d+ without the tag would fail
      on the tag's first letter anyway. */
  function AtomEnd(s: string, i: nat, a: Atom): (r: Option<nat>)
    requires i <= |s|
    ensures r.Some? ==> i <= r.value <= |s|
  {
    match a
    case Literal(x) => if LitAt(s, i, x) then Some(i + |x|) else None
    case Digits => var j := DigitsEnd(s, i); if j == i then None else Some(j)
    case Field => var j := FieldEnd(s, i); if j == i then None else Some(j)
    case Patch =>
      var j := DigitsEnd(s, i + TagLength(s, i));
      if j == i + TagLength(s, i) then None else Some(j)
  }

  /** Matches the atoms one after the other from i; returns the text of each and the end. */
  function MatchAtoms(s: string, i: nat, atoms: seq<Atom>): (r: Option<(seq<string>, nat)>)
    requires i <= |s|
    ensures r.Some? ==> |r.value.0| == |atoms| && i <= r.value.1 <= |s|
    decreases |atoms|, |s| - i
  {
    if atoms == [] then Some(([], i))
    else
      match AtomEnd(s, i, atoms[0])
      case None => None
      case Some(j) =>
        match MatchAtoms(s, j, atoms[1..])
        case None => None
        case Some((ts, e)) => Some(([s[i..j]] + ts, e))
  }

  /** `.?` followed by the rest of the pattern: one character (never a newline) is tried
      first, then none. Returns the separator, the pieces of the rest and the end. */
  function MatchSeparated(s: string, i: nat): (r: Option<(string, seq<string>, nat)>)
    requires i <= |s|
    ensures r.Some? ==> |r.value.1| == |TailPattern| && i <= r.value.2 <= |s|
  {
    var one := if i < |s| && s[i] != '\n' then MatchAtoms(s, i + 1, TailPattern) else None;
    if one.Some? then Some((s[i..i + 1], one.value.0, one.value.1))
    else
      var none := MatchAtoms(s, i, TailPattern);
      if none.Some? then Some(([], none.value.0, none.value.1)) else None
  }

  /** The minor group (\d+) starts at i and first takes the digits up to k; when the rest
      fails, it gives back one digit and the rest is tried again, down to a single digit.
      Returns the minor group, the separator, the pieces of the rest and the end. */
  function MatchMinor(s: string, i: nat, k: nat): (r: Option<(string, string, seq<string>, nat)>)
    requires i <= |s| && i <= k <= DigitsEnd(s, i)
    ensures r.Some? ==> |r.value.2| == |TailPattern| && i <= r.value.3 <= |s|
    decreases k
  {
    if k == i then None
    else
      var m := MatchSeparated(s, k);
      if m.Some? then
        Some((s[i..k], m.value.0, m.value.1, m.value.2))
      else MatchMinor(s, i, k - 1)
  }

  /** One attempt of the search: the pattern anchored at i. Returns the groups, the
      separator and the end of the match. */
  function MatchAt(s: string, i: nat): (r: Option<(Groups, string, nat)>)
    requires i <= |s|
    ensures r.Some? ==> i <= r.value.2 <= |s|
  {
    match MatchAtoms(s, i, HeadPattern)
    case None => None
    case Some((hs, n)) =>
      match MatchMinor(s, n, DigitsEnd(s, n))
      case None => None
      case Some((minor, sep, ts, e)) =>
        Some((Groups(hs[1], minor, ts[0], ts[2], ts[4], ts[6]), sep, e))
  }

  /** Where the match begins, its groups and the separator `.?` consumed (MatchData). */
  datatype MatchData = MatchData(start: nat, groups: Groups, sep: string)

  /** The unanchored search: the pattern is tried at i, i + 1, ... up to the end of s. */
  function Search(s: string, i: nat): (r: Option<MatchData>)
    requires i <= |s|
    ensures r.Some? ==> i <= r.value.start && MatchesAt(s, r.value.start, r.value.groups, r.value.sep)
    decreases |s| - i
  {
    var m := MatchAt(s, i);
    if m.Some? then
      MatchAtSound(s, i);
      Some(MatchData(i, m.value.0, m.value.1))
    else if i == |s| then None
    else Search(s, i + 1)
  }

  /** String#match with VERSION_REGEXP: the leftmost match, if any. */
  function Match(s: string): (r: Option<MatchData>)
    ensures r.Some? ==> MatchesAt(s, r.value.start, r.value.groups, r.value.sep)
  {
    Search(s, 0)
  }

  // ---------------------------------------------------------------------------------------
  // Lemmas about slices and pieces

  lemma {:induction false} SliceConcat(s: string, i: nat, j: nat, k: nat)
    requires i <= j <= k <= |s|
    ensures s[i..k] == s[i..j] + s[j..k]
  {
  }

  /** The optional tag and the digits after it form a patch group. */
  lemma {:induction false} PatchSlice(s: string, i: nat, j: nat)
    requires i <= |s|
    requires TagLength(s, i) < j - i && j == DigitsEnd(s, i + TagLength(s, i))
    ensures IsPatch(s[i..j])
  {
    var n := TagLength(s, i);
    var p := s[i..j];
    DigitsRun(s, i + n);
    assert p[n..] == s[i + n..j];
    if n == 0 {
      assert IsNumeral(p);
    } else {
      assert p[..n] == s[i..i + n];
    }
  }

  lemma {:induction false} LitAtConcat(s: string, i: nat, a: string, b: string)
    requires LitAt(s, i, a + b)
    ensures LitAt(s, i, a) && LitAt(s, i + |a|, b)
  {
    assert s[i..i + |a|] == (a + b)[..|a|];
    assert s[i + |a|..i + |a| + |b|] == (a + b)[|a|..];
  }

  lemma {:induction false} FitAt(atoms: seq<Atom>, ts: seq<string>, k: nat)
    requires FitAll(atoms, ts) && k < |atoms|
    ensures Fits(atoms[k], ts[k])
    decreases k
  {
    if k > 0 {
      FitAt(atoms[1..], ts[1..], k - 1);
    }
  }

  // ---------------------------------------------------------------------------------------
  // What the greedy runs and the atoms take

  lemma {:induction false} DigitsRun(s: string, i: nat)
    requires i <= |s|
    ensures AllDigits(s[i..DigitsEnd(s, i)])
    ensures DigitsEnd(s, i) < |s| ==> !IsDigit(s[DigitsEnd(s, i)])
    decreases |s| - i
  {
    if i < |s| && IsDigit(s[i]) {
      DigitsRun(s, i + 1);
      assert s[i..DigitsEnd(s, i)] == [s[i]] + s[i + 1..DigitsEnd(s, i)];
    }
  }

  lemma {:induction false} FieldRun(s: string, i: nat)
    requires i <= |s|
    ensures ',' !in s[i..FieldEnd(s, i)]
    ensures FieldEnd(s, i) < |s| ==> s[FieldEnd(s, i)] == ','
    decreases |s| - i
  {
    if i < |s| && s[i] != ',' {
      FieldRun(s, i + 1);
      assert s[i..FieldEnd(s, i)] == [s[i]] + s[i + 1..FieldEnd(s, i)];
    }
  }

  /** What an atom takes fits the atom. */
  lemma {:induction false} AtomEndSound(s: string, i: nat, a: Atom)
    requires i <= |s| && AtomEnd(s, i, a).Some?
    ensures Fits(a, s[i..AtomEnd(s, i, a).value])
  {
    match a
    case Literal(x) =>
    case Digits => DigitsRun(s, i);
    case Field => FieldRun(s, i);
    case Patch => PatchSlice(s, i, AtomEnd(s, i, a).value);
  }

  /** The pieces the matcher returns fit their atoms and spell out the matched text. */
  lemma {:induction false} MatchAtomsSound(s: string, i: nat, atoms: seq<Atom>)
    requires i <= |s| && MatchAtoms(s, i, atoms).Some?
    ensures var (ts, e) := MatchAtoms(s, i, atoms).value; FitAll(atoms, ts) && s[i..e] == Concat(ts)
    decreases |atoms|
  {
    if atoms != [] {
      var j := AtomEnd(s, i, atoms[0]).value;
      var (ts, e) := MatchAtoms(s, j, atoms[1..]).value;
      AtomEndSound(s, i, atoms[0]);
      MatchAtomsSound(s, j, atoms[1..]);
      SliceConcat(s, i, j, e);
      assert ([s[i..j]] + ts)[1..] == ts;
    }
  }

  /** Pieces that fit the tail of the pattern are the pieces of their four groups. */
  lemma {:induction false} TailFit(ts: seq<string>)
    requires FitAll(TailPattern, ts)
    ensures ts == TailPieces(ts[0], ts[2], ts[4], ts[6])
    ensures IsPatch(ts[0]) && IsField(ts[2]) && IsField(ts[4]) && IsNumeral(ts[6])
  {
    FitAt(TailPattern, ts, 0);
    FitAt(TailPattern, ts, 1);
    FitAt(TailPattern, ts, 2);
    FitAt(TailPattern, ts, 3);
    FitAt(TailPattern, ts, 4);
    FitAt(TailPattern, ts, 5);
    FitAt(TailPattern, ts, 6);
    FitAt(TailPattern, ts, 7);
  }

  // ---------------------------------------------------------------------------------------
  // Soundness: a match spells out MatchText of its groups

  lemma {:induction false} MatchSeparatedSound(s: string, i: nat)
    requires i <= |s| && MatchSeparated(s, i).Some?
    ensures var r := MatchSeparated(s, i).value; IsSeparator(r.0) && FitAll(TailPattern, r.1)
    ensures var r := MatchSeparated(s, i).value; s[i..r.2] == r.0 + Concat(r.1)
  {
    if i < |s| && s[i] != '\n' && MatchAtoms(s, i + 1, TailPattern).Some? {
      var (ts, e) := MatchAtoms(s, i + 1, TailPattern).value;
      MatchAtomsSound(s, i + 1, TailPattern);
      SliceConcat(s, i, i + 1, e);
      assert MatchSeparated(s, i).value == (s[i..i + 1], ts, e);
    } else {
      var (ts, e) := MatchAtoms(s, i, TailPattern).value;
      MatchAtomsSound(s, i, TailPattern);
      assert MatchSeparated(s, i).value == ([], ts, e);
    }
  }

  lemma {:induction false} MatchMinorSound(s: string, i: nat, k: nat)
    requires i <= |s| && i <= k <= DigitsEnd(s, i) && MatchMinor(s, i, k).Some?
    ensures var r := MatchMinor(s, i, k).value; IsNumeral(r.0) && IsSeparator(r.1)
    ensures var r := MatchMinor(s, i, k).value; FitAll(TailPattern, r.2)
    ensures var r := MatchMinor(s, i, k).value; s[i..r.3] == r.0 + (r.1 + Concat(r.2))
    decreases k
  {
    if MatchSeparated(s, k).Some? {
      DigitsRun(s, i);
      assert s[i..k] == s[i..DigitsEnd(s, i)][..k - i];
      MatchSeparatedSound(s, k);
      SliceConcat(s, i, k, MatchSeparated(s, k).value.2);
    } else {
      MatchMinorSound(s, i, k - 1);
    }
  }

  lemma {:induction false} MatchAtSound(s: string, i: nat)
    requires i <= |s| && MatchAt(s, i).Some?
    ensures var r := MatchAt(s, i).value; MatchesAt(s, i, r.0, r.1)
  {
    var (hs, n) := MatchAtoms(s, i, HeadPattern).value;
    var (minor, sep, ts, e) := MatchMinor(s, n, DigitsEnd(s, n)).value;
    MatchAtomsSound(s, i, HeadPattern);
    MatchMinorSound(s, n, DigitsEnd(s, n));
    TailFit(ts);
    FitAt(HeadPattern, hs, 0);
    FitAt(HeadPattern, hs, 1);
    FitAt(HeadPattern, hs, 2);
    assert hs == HeadPieces(hs[1]) && IsNumeral(hs[1]);
    SliceConcat(s, i, n, e);
  }

  // ---------------------------------------------------------------------------------------
  // Completeness: wherever the pattern matches, the matcher finds a match

  lemma {:induction false} DigitsEndOf(s: string, i: nat, j: nat)
    requires i <= j <= |s| && AllDigits(s[i..j])
    requires j == |s| || !IsDigit(s[j])
    ensures DigitsEnd(s, i) == j
    decreases j - i
  {
    if i < j {
      assert s[i..j][0] == s[i];
      assert s[i + 1..j] == s[i..j][1..];
      DigitsEndOf(s, i + 1, j);
    }
  }

  lemma {:induction false} FieldEndOf(s: string, i: nat, j: nat)
    requires i <= j <= |s| && ',' !in s[i..j]
    requires j == |s| || s[j] == ','
    ensures FieldEnd(s, i) == j
    decreases j - i
  {
    if i < j {
      assert s[i..j][0] == s[i];
      assert s[i + 1..j] == s[i..j][1..];
      FieldEndOf(s, i + 1, j);
    }
  }

  lemma {:induction false} DigitsEndAtLeast(s: string, i: nat, j: nat)
    requires i <= j <= |s| && AllDigits(s[i..j])
    ensures j <= DigitsEnd(s, i)
    decreases j - i
  {
    if i < j {
      assert s[i..j][0] == s[i];
      assert s[i + 1..j] == s[i..j][1..];
      DigitsEndAtLeast(s, i + 1, j);
    }
  }

  /** A literal is not at i when its first character is not. */
  lemma {:induction false} NoLitAt(s: string, i: nat, lit: string)
    requires |lit| > 0 && i < |s| && s[i] != lit[0]
    ensures !LitAt(s, i, lit)
  {
    if i + |lit| <= |s| {
      assert s[i..i + |lit|][0] == s[i];
    }
  }

  /** At a patch, the tag alternative consumes exactly the patch's tag. */
  lemma {:induction false} TagLengthOf(s: string, i: nat, p: string)
    requires IsPatch(p) && LitAt(s, i, p)
    ensures TagLength(s, i) < |p| && AllDigits(p[TagLength(s, i)..])
  {
    assert s[i] == p[0] by {
      assert s[i..i + |p|][0] == s[i];
    }
    if Tagged(p, "alpha") {
      assert s[i..i + 5] == p[..5];
    } else if Tagged(p, "beta") {
      assert p[0] == p[..4][0];
      NoLitAt(s, i, "alpha");
      assert s[i..i + 4] == p[..4];
    } else if Tagged(p, "rc") {
      assert p[0] == p[..2][0];
      NoLitAt(s, i, "alpha");
      NoLitAt(s, i, "beta");
      assert s[i..i + 2] == p[..2];
    } else {
      assert IsDigit(p[0]);
      NoLitAt(s, i, "alpha");
      NoLitAt(s, i, "beta");
      NoLitAt(s, i, "rc");
    }
  }

  /** The character after a greedy atom's text is one it cannot take. */
  predicate Stops(a: Atom, c: char) {
    match a
    case Literal(_) => true
    case Digits => !IsDigit(c)
    case Field => c == ','
    case Patch => !IsDigit(c)
  }

  /** Every greedy atom is followed by a piece whose first character stops it. */
  predicate Delimited(atoms: seq<Atom>, ts: seq<string>)
    decreases |atoms|, ts
  {
    |ts| == |atoms| &&
    (atoms == [] ||
     ((atoms[0].Literal? || (|ts| > 1 && |ts[1]| > 0 && Stops(atoms[0], ts[1][0])))
      && Delimited(atoms[1..], ts[1..])))
  }

  lemma {:induction false} HeadDelimited(major: string)
    requires IsNumeral(major)
    ensures FitAll(HeadPattern, HeadPieces(major)) && Delimited(HeadPattern, HeadPieces(major))
  {
    var ts := HeadPieces(major);
    assert FitAll(HeadPattern[2..], ts[2..]) && Delimited(HeadPattern[2..], ts[2..]);
    assert FitAll(HeadPattern[1..], ts[1..]) && Delimited(HeadPattern[1..], ts[1..]);
  }

  lemma {:induction false} TailDelimited(patch: string, host: string, compiler: string, bits: string)
    requires IsPatch(patch) && IsField(host) && IsField(compiler) && IsNumeral(bits)
    ensures FitAll(TailPattern, TailPieces(patch, host, compiler, bits))
    ensures Delimited(TailPattern, TailPieces(patch, host, compiler, bits))
  {
    var ts := TailPieces(patch, host, compiler, bits);
    assert FitAll(TailPattern[7..], ts[7..]) && Delimited(TailPattern[7..], ts[7..]);
    assert FitAll(TailPattern[6..], ts[6..]) && Delimited(TailPattern[6..], ts[6..]);
    assert FitAll(TailPattern[5..], ts[5..]) && Delimited(TailPattern[5..], ts[5..]);
    assert FitAll(TailPattern[4..], ts[4..]) && Delimited(TailPattern[4..], ts[4..]);
    assert FitAll(TailPattern[3..], ts[3..]) && Delimited(TailPattern[3..], ts[3..]);
    assert FitAll(TailPattern[2..], ts[2..]) && Delimited(TailPattern[2..], ts[2..]);
    assert FitAll(TailPattern[1..], ts[1..]) && Delimited(TailPattern[1..], ts[1..]);
  }

  lemma {:induction false} AtomEndOf(s: string, i: nat, a: Atom, t: string)
    requires Fits(a, t) && LitAt(s, i, t)
    requires !a.Literal? ==> i + |t| < |s| && Stops(a, s[i + |t|])
    ensures AtomEnd(s, i, a) == Some(i + |t|)
  {
    match a
    case Literal(x) =>
    case Digits => DigitsEndOf(s, i, i + |t|);
    case Field => FieldEndOf(s, i, i + |t|);
    case Patch =>
      TagLengthOf(s, i, t);
      var n := TagLength(s, i);
      assert s[i + n..i + |t|] == t[n..];
      DigitsEndOf(s, i + n, i + |t|);
  }

  lemma {:induction false} MatchAtomsOf(s: string, i: nat, atoms: seq<Atom>, ts: seq<string>)
    requires FitAll(atoms, ts) && Delimited(atoms, ts) && LitAt(s, i, Concat(ts))
    ensures MatchAtoms(s, i, atoms) == Some((ts, i + |Concat(ts)|))
    decreases atoms
  {
    if atoms != [] {
      var j := i + |ts[0]|;
      FirstAtomOf(s, i, atoms, ts);
      MatchAtomsOf(s, j, atoms[1..], ts[1..]);
      assert [s[i..j]] + ts[1..] == ts;
      assert i + |Concat(ts)| == j + |Concat(ts[1..])|;
    }
  }

  /** The first atom takes exactly the first piece, and the rest follows it. */
  lemma {:induction false} FirstAtomOf(s: string, i: nat, atoms: seq<Atom>, ts: seq<string>)
    requires atoms != [] && FitAll(atoms, ts) && Delimited(atoms, ts) && LitAt(s, i, Concat(ts))
    ensures AtomEnd(s, i, atoms[0]) == Some(i + |ts[0]|)
    ensures s[i..i + |ts[0]|] == ts[0] && Concat(ts) == ts[0] + Concat(ts[1..])
    ensures LitAt(s, i + |ts[0]|, Concat(ts[1..]))
  {
    var j := i + |ts[0]|;
    LitAtConcat(s, i, ts[0], Concat(ts[1..]));
    if !atoms[0].Literal? {
      assert ts[1..][0] == ts[1];
      assert s[j] == Concat(ts[1..])[0];
    }
    AtomEndOf(s, i, atoms[0], ts[0]);
  }

  lemma {:induction false} MatchSeparatedFinds(s: string, i: nat, sep: string, ts: seq<string>)
    requires IsSeparator(sep) && LitAt(s, i, sep)
    requires FitAll(TailPattern, ts) && Delimited(TailPattern, ts) && LitAt(s, i + |sep|, Concat(ts))
    ensures MatchSeparated(s, i).Some?
  {
    if sep == [] {
      MatchAtomsOf(s, i, TailPattern, ts);
    } else {
      assert s[i] == sep[0];
      MatchAtomsOf(s, i + 1, TailPattern, ts);
    }
  }

  /** When `.?` is one character, the first alternative finds it with the given pieces. */
  lemma {:induction false} MatchSeparatedOf(s: string, i: nat, sep: string, ts: seq<string>)
    requires IsSeparator(sep) && |sep| == 1 && LitAt(s, i, sep)
    requires FitAll(TailPattern, ts) && Delimited(TailPattern, ts) && LitAt(s, i + 1, Concat(ts))
    ensures MatchSeparated(s, i) == Some((sep, ts, i + 1 + |Concat(ts)|))
  {
    assert s[i] == sep[0];
    MatchAtomsOf(s, i + 1, TailPattern, ts);
  }

  lemma {:induction false} MatchMinorFinds(s: string, i: nat, k: nat, k0: nat)
    requires i <= |s| && i < k0 <= k <= DigitsEnd(s, i)
    requires MatchSeparated(s, k0).Some?
    ensures MatchMinor(s, i, k).Some?
    decreases k
  {
    if k > k0 && MatchSeparated(s, k).None? {
      MatchMinorFinds(s, i, k - 1, k0);
    }
  }

  /** The pieces after the major number, placed one after the other from position n of s. */
  predicate RestAt(s: string, n: nat, minor: string, sep: string, ts: seq<string>) {
    && IsNumeral(minor) && LitAt(s, n, minor)
    && IsSeparator(sep) && LitAt(s, n + |minor|, sep)
    && FitAll(TailPattern, ts) && Delimited(TailPattern, ts) && LitAt(s, n + |minor| + |sep|, Concat(ts))
  }

  /** The pieces of a match, placed one after the other from position i of s. */
  predicate PiecesAt(s: string, i: nat, hs: seq<string>, minor: string, sep: string, ts: seq<string>) {
    && FitAll(HeadPattern, hs) && Delimited(HeadPattern, hs) && LitAt(s, i, Concat(hs))
    && RestAt(s, i + |Concat(hs)|, minor, sep, ts)
  }

  /** A matched text consists of its pieces. */
  lemma {:induction false} MatchTextAt(s: string, i: nat, g: Groups, sep: string)
    requires MatchesAt(s, i, g, sep)
    ensures PiecesAt(s, i, HeadPieces(g.major), g.minor, sep, TailPieces(g.patch, g.host, g.compiler, g.bits))
  {
    var h := Concat(HeadPieces(g.major));
    var t := Concat(TailPieces(g.patch, g.host, g.compiler, g.bits));
    LitAtConcat(s, i, h, g.minor + (sep + t));
    LitAtConcat(s, i + |h|, g.minor, sep + t);
    LitAtConcat(s, i + |h| + |g.minor|, sep, t);
    HeadDelimited(g.major);
    TailDelimited(g.patch, g.host, g.compiler, g.bits);
  }

  lemma {:induction false} MinorFound(s: string, n: nat, minor: string, sep: string, ts: seq<string>)
    requires RestAt(s, n, minor, sep, ts)
    ensures MatchMinor(s, n, DigitsEnd(s, n)).Some?
  {
    var k0 := n + |minor|;
    MatchSeparatedFinds(s, k0, sep, ts);
    DigitsEndAtLeast(s, n, k0);
    MatchMinorFinds(s, n, DigitsEnd(s, n), k0);
  }

  lemma {:induction false} MinorFoundExactly(s: string, n: nat, minor: string, sep: string, ts: seq<string>, e: nat)
    requires RestAt(s, n, minor, sep, ts) && |sep| == 1 && !IsDigit(sep[0])
    requires e == n + |minor| + 1 + |Concat(ts)|
    ensures MatchMinor(s, n, DigitsEnd(s, n)) == Some((minor, sep, ts, e))
    ensures |ts| == |TailPattern|
  {
    var k0 := n + |minor|;
    assert s[k0] == sep[0];
    DigitsEndOf(s, n, k0);
    MatchSeparatedOf(s, k0, sep, ts);
  }

  lemma {:induction false} HeadFound(s: string, i: nat, hs: seq<string>, n: nat, minor: string, sep: string, ts: seq<string>)
    requires PiecesAt(s, i, hs, minor, sep, ts) && n == i + |Concat(hs)|
    ensures MatchAtoms(s, i, HeadPattern) == Some((hs, n))
    ensures |hs| == |HeadPattern| && n <= |s|
    ensures RestAt(s, n, minor, sep, ts)
  {
    MatchAtomsOf(s, i, HeadPattern, hs);
  }

  /** MatchAt put together from the match of the head and of the rest. */
  lemma {:induction false} MatchAtFrom(s: string, i: nat, hs: seq<string>, n: nat,
                     g: Groups, sep: string, ts: seq<string>, e: nat)
    requires i <= n <= |s| && |hs| == |HeadPattern| && |ts| == |TailPattern|
    requires g == Groups(hs[1], g.minor, ts[0], ts[2], ts[4], ts[6])
    requires MatchAtoms(s, i, HeadPattern) == Some((hs, n))
    requires MatchMinor(s, n, DigitsEnd(s, n)) == Some((g.minor, sep, ts, e))
    ensures MatchAt(s, i) == Some((g, sep, e))
  {
  }

  lemma {:induction false} MatchAtSome(s: string, i: nat, hs: seq<string>, n: nat)
    requires i <= n <= |s| && |hs| == |HeadPattern|
    requires MatchAtoms(s, i, HeadPattern) == Some((hs, n))
    requires MatchMinor(s, n, DigitsEnd(s, n)).Some?
    ensures MatchAt(s, i).Some?
  {
  }

  lemma {:induction false} PiecesFound(s: string, i: nat, hs: seq<string>, minor: string, sep: string, ts: seq<string>)
    requires PiecesAt(s, i, hs, minor, sep, ts)
    ensures MatchAt(s, i).Some?
  {
    var n := i + |Concat(hs)|;
    HeadFound(s, i, hs, n, minor, sep, ts);
    MinorFound(s, n, minor, sep, ts);
    MatchAtSome(s, i, hs, n);
  }

  lemma {:induction false} PiecesFoundExactly(s: string, i: nat, g: Groups, sep: string, e: nat)
    requires PiecesAt(s, i, HeadPieces(g.major), g.minor, sep, TailPieces(g.patch, g.host, g.compiler, g.bits))
    requires |sep| == 1 && !IsDigit(sep[0]) && e == i + |MatchText(g, sep)|
    ensures MatchAt(s, i) == Some((g, sep, e))
  {
    var hs := HeadPieces(g.major);
    var ts := TailPieces(g.patch, g.host, g.compiler, g.bits);
    var n := i + |Concat(hs)|;
    HeadFound(s, i, hs, n, g.minor, sep, ts);
    MinorFoundExactly(s, n, g.minor, sep, ts, e);
    MatchAtFrom(s, i, hs, n, g, sep, ts, e);
  }

  lemma {:induction false} MatchAtFinds(s: string, i: nat, g: Groups, sep: string)
    requires MatchesAt(s, i, g, sep)
    ensures MatchAt(s, i).Some?
  {
    MatchTextAt(s, i, g, sep);
    PiecesFound(s, i, HeadPieces(g.major), g.minor, sep, TailPieces(g.patch, g.host, g.compiler, g.bits));
  }

  /** When `.?` consumes a character that is not a digit, the match at i is exactly g. */
  lemma {:induction false} MatchAtOf(s: string, i: nat, g: Groups, sep: string)
    requires MatchesAt(s, i, g, sep) && |sep| == 1 && !IsDigit(sep[0])
    ensures MatchAt(s, i) == Some((g, sep, i + |MatchText(g, sep)|))
  {
    MatchTextAt(s, i, g, sep);
    PiecesFoundExactly(s, i, g, sep, i + |MatchText(g, sep)|);
  }

  /** A patch that starts with a tag has the tag's second letter next, which starts no tag. */
  lemma {:induction false} TagSecondLetter(p: string)
    requires IsPatch(p) && !IsDigit(p[0])
    ensures 1 < |p| && (p[1] == 'l' || p[1] == 'e' || p[1] == 'c')
  {
    if Tagged(p, "alpha") {
      assert p[..5] == "alpha";
    } else if Tagged(p, "beta") {
      assert p[..4] == "beta";
    } else {
      assert p[..2] == "rc";
    }
  }

  /** A character that neither a digit nor a tag can start with. */
  predicate StartsNoPatch(c: char) {
    !IsDigit(c) && c != 'a' && c != 'b' && c != 'r'
  }

  /** The rest of the pattern cannot start at a character that starts no patch. */
  lemma {:induction false} TailFailsAt(s: string, k: nat)
    requires k < |s| && StartsNoPatch(s[k])
    ensures MatchAtoms(s, k, TailPattern).None?
  {
    assert AtomEnd(s, k, Patch).None? by {
      assert TagLength(s, k) == 0;
      assert DigitsEnd(s, k) == k;
    }
    assert TailPattern[0] == Patch;
  }

  /** `.?` and the rest of the pattern both fail at k when neither s[k] nor s[k + 1] can
      start a patch. */
  lemma {:induction false} SeparatedFails(s: string, k: nat)
    requires k + 1 < |s| && StartsNoPatch(s[k]) && StartsNoPatch(s[k + 1])
    ensures MatchSeparated(s, k).None?
  {
    TailFailsAt(s, k);
    TailFailsAt(s, k + 1);
  }

  /** `.?` takes nothing when taking one character makes the rest fail. */
  lemma {:induction false} SeparatedByNothing(s: string, k: nat, ts: seq<string>, e: nat)
    requires k + 1 <= |s| && MatchAtoms(s, k + 1, TailPattern).None?
    requires MatchAtoms(s, k, TailPattern) == Some((ts, e))
    ensures MatchSeparated(s, k) == Some(([], ts, e))
  {
  }

  /** The minor group keeps all its digits when the rest matches right after them. */
  lemma {:induction false} MinorAllDigits(s: string, n: nat, k: nat, sep: string, ts: seq<string>, e: nat)
    requires n <= |s| && n < k == DigitsEnd(s, n) && MatchSeparated(s, k) == Some((sep, ts, e))
    ensures MatchMinor(s, n, DigitsEnd(s, n)) == Some((s[n..k], sep, ts, e))
  {
  }

  /** The minor group is all of the numeral at n when the rest matches right after it. */
  lemma {:induction false} MinorFrom(s: string, n: nat, minor: string, sep: string, ts: seq<string>, e: nat)
    requires IsNumeral(minor) && LitAt(s, n, minor)
    requires n + |minor| < |s| && !IsDigit(s[n + |minor|])
    requires MatchSeparated(s, n + |minor|) == Some((sep, ts, e))
    ensures MatchMinor(s, n, DigitsEnd(s, n)) == Some((minor, sep, ts, e))
  {
    DigitsEndOf(s, n, n + |minor|);
    MinorAllDigits(s, n, n + |minor|, sep, ts, e);
  }

  /** Before a patch that starts with a tag, `.?` first takes the tag's first letter, the
      patch then fails on the tag's second letter, and `.?` takes nothing. */
  lemma {:induction false} TaggedSeparated(s: string, k: nat, ts: seq<string>, e: nat)
    requires |ts| > 0 && |ts[0]| > 0 && !IsDigit(ts[0][0])
    requires FitAll(TailPattern, ts) && Delimited(TailPattern, ts) && LitAt(s, k, Concat(ts))
    requires e == k + |Concat(ts)|
    ensures k < |s| && s[k] == ts[0][0]
    ensures MatchSeparated(s, k) == Some(([], ts, e))
  {
    TaggedLetters(s, k, ts);
    TailFailsAt(s, k + 1);
    MatchAtomsOf(s, k, TailPattern, ts);
    SeparatedByNothing(s, k, ts, e);
  }

  /** A tagged patch at k puts its first letter at k and a letter that starts no tag at k + 1. */
  lemma {:induction false} TaggedLetters(s: string, k: nat, ts: seq<string>)
    requires |ts| > 0 && |ts[0]| > 0 && !IsDigit(ts[0][0])
    requires FitAll(TailPattern, ts) && Delimited(TailPattern, ts) && LitAt(s, k, Concat(ts))
    ensures k + 1 < |s| && s[k] == ts[0][0] && StartsNoPatch(s[k + 1])
  {
    TailFit(ts);
    TagSecondLetter(ts[0]);
    FirstAtomOf(s, k, TailPattern, ts);
    assert s[k] == ts[0][0] && s[k + 1] == ts[0][1];
  }

  lemma {:induction false} MinorFoundTagged(s: string, n: nat, minor: string, ts: seq<string>, e: nat)
    requires |ts| > 0 && |ts[0]| > 0 && !IsDigit(ts[0][0]) && RestAt(s, n, minor, [], ts)
    requires e == n + |minor| + |Concat(ts)|
    ensures MatchMinor(s, n, DigitsEnd(s, n)) == Some((minor, [], ts, e))
    ensures |ts| == |TailPattern|
  {
    var k := n + |minor|;
    TaggedSeparated(s, k, ts, e);
    MinorFrom(s, n, minor, [], ts, e);
  }

  lemma {:induction false} PiecesFoundTagged(s: string, i: nat, g: Groups, e: nat)
    requires PiecesAt(s, i, HeadPieces(g.major), g.minor, [], TailPieces(g.patch, g.host, g.compiler, g.bits))
    requires |g.patch| > 0 && !IsDigit(g.patch[0]) && e == i + |MatchText(g, [])|
    ensures MatchAt(s, i) == Some((g, [], e))
  {
    var hs := HeadPieces(g.major);
    var ts := TailPieces(g.patch, g.host, g.compiler, g.bits);
    var n := i + |Concat(hs)|;
    HeadFound(s, i, hs, n, g.minor, [], ts);
    MinorFoundTagged(s, n, g.minor, ts, e);
    MatchAtFrom(s, i, hs, n, g, [], ts, e);
  }

  /** When the patch starts with a tag and `.?` consumes nothing, the match at i is exactly g. */
  lemma {:induction false} MatchAtOfTagged(s: string, i: nat, g: Groups)
    requires MatchesAt(s, i, g, []) && !IsDigit(g.patch[0])
    ensures MatchAt(s, i) == Some((g, [], i + |MatchText(g, [])|))
  {
    MatchTextAt(s, i, g, []);
    PiecesFoundTagged(s, i, g, i + |MatchText(g, [])|);
  }

  /** A patch of one digit right after the minor number, with nothing between them, is
      followed by " on ". */
  lemma {:induction false} JoinedLetters(s: string, k: nat, ts: seq<string>)
    requires |ts| > 0 && |ts[0]| == 1 && IsDigit(ts[0][0])
    requires FitAll(TailPattern, ts) && Delimited(TailPattern, ts) && LitAt(s, k, Concat(ts))
    ensures k + 2 < |s| && IsDigit(s[k]) && s[k + 1] == ' ' && s[k + 2] == 'o'
  {
    TailFit(ts);
    FirstAtomOf(s, k, TailPattern, ts);
    FirstAtomOf(s, k + 1, TailPattern[1..], ts[1..]);
    assert ts[1..][0] == " on ";
    assert s[k + 1..k + 5] == " on ";
    assert s[k + 1] == " on "[0] && s[k + 2] == " on "[1];
  }

  /** Before such a patch, `.?` takes nothing (taking the digit leaves " on " for the patch). */
  lemma {:induction false} JoinedSeparated(s: string, k: nat, ts: seq<string>, e: nat)
    requires |ts| > 0 && |ts[0]| == 1 && IsDigit(ts[0][0])
    requires FitAll(TailPattern, ts) && Delimited(TailPattern, ts) && LitAt(s, k, Concat(ts))
    requires e == k + |Concat(ts)|
    ensures k + 2 < |s| && IsDigit(s[k]) && s[k + 1] == ' ' && s[k + 2] == 'o'
    ensures MatchSeparated(s, k) == Some(([], ts, e))
    ensures MatchSeparated(s, k + 1).None?
  {
    JoinedLetters(s, k, ts);
    TailFailsAt(s, k + 1);
    MatchAtomsOf(s, k, TailPattern, ts);
    SeparatedByNothing(s, k, ts, e);
    SeparatedFails(s, k + 1);
  }

  /** The greedy minor number first takes the patch digit too; the rest then fails at the
      space after it, and the minor number gives the digit back. */
  lemma {:induction false} MinorGivesBack(s: string, n: nat, k: nat, sep: string, ts: seq<string>, e: nat)
    requires n < k && k + 1 < |s| && AllDigits(s[n..k + 1]) && !IsDigit(s[k + 1])
    requires MatchSeparated(s, k + 1).None? && MatchSeparated(s, k) == Some((sep, ts, e))
    ensures MatchMinor(s, n, DigitsEnd(s, n)) == Some((s[n..k], sep, ts, e))
  {
    DigitsEndOf(s, n, k + 1);
    assert MatchMinor(s, n, k + 1) == MatchMinor(s, n, k);
  }

  lemma {:induction false} MinorFoundJoined(s: string, n: nat, minor: string, ts: seq<string>, e: nat)
    requires |ts| > 0 && |ts[0]| == 1 && IsDigit(ts[0][0]) && RestAt(s, n, minor, [], ts)
    requires e == n + |minor| + |Concat(ts)|
    ensures MatchMinor(s, n, DigitsEnd(s, n)) == Some((minor, [], ts, e))
    ensures |ts| == |TailPattern|
  {
    var k := n + |minor|;
    JoinedSeparated(s, k, ts, e);
    assert s[n..k] == minor;
    assert s[n..k + 1] == minor + [s[k]];
    MinorGivesBack(s, n, k, [], ts, e);
  }

  lemma {:induction false} PiecesFoundJoined(s: string, i: nat, g: Groups, e: nat)
    requires PiecesAt(s, i, HeadPieces(g.major), g.minor, [], TailPieces(g.patch, g.host, g.compiler, g.bits))
    requires |g.patch| == 1 && IsDigit(g.patch[0]) && e == i + |MatchText(g, [])|
    ensures MatchAt(s, i) == Some((g, [], e))
  {
    var hs := HeadPieces(g.major);
    var ts := TailPieces(g.patch, g.host, g.compiler, g.bits);
    var n := i + |Concat(hs)|;
    HeadFound(s, i, hs, n, g.minor, [], ts);
    MinorFoundJoined(s, n, g.minor, ts, e);
    MatchAtFrom(s, i, hs, n, g, [], ts, e);
  }

  /** When the patch is one digit written right after the minor number, the match at i is
      exactly g: this is how a text such as "PostgreSQL 12.15 on ..." is read, with 1 as
      minor number and 5 as patch. */
  lemma {:induction false} MatchAtOfJoined(s: string, i: nat, g: Groups)
    requires MatchesAt(s, i, g, []) && |g.patch| == 1 && IsDigit(g.patch[0])
    ensures MatchAt(s, i) == Some((g, [], i + |MatchText(g, [])|))
  {
    MatchTextAt(s, i, g, []);
    PiecesFoundJoined(s, i, g, i + |MatchText(g, [])|);
  }

  /** A match found at the very start of s is the one String#match returns. */
  lemma {:induction false} MatchAtStart(s: string)
    requires MatchAt(s, 0).Some?
    ensures Match(s) == Some(MatchData(0, MatchAt(s, 0).value.0, MatchAt(s, 0).value.1))
  {
  }

  lemma {:induction false} HeadSpelled(major: string)
    ensures Concat(HeadPieces(major)) == "PostgreSQL " + major + "."
  {
    var hs := HeadPieces(major);
    assert Concat(hs[2..]) == ".";
    assert Concat(hs[1..]) == major + ".";
  }

  /** The last four pieces of a match written out. */
  lemma {:induction false} TrailerSpelled(compiler: string, bits: string)
    ensures Concat([compiler, ", ", bits, "-bit"]) == compiler + ", " + bits + "-bit"
  {
    var ts := [compiler, ", ", bits, "-bit"];
    assert Concat(ts[3..]) == "-bit";
    assert Concat(ts[2..]) == bits + "-bit";
    assert Concat(ts[1..]) == ", " + bits + "-bit";
  }

  lemma {:induction false} TailSpelled(patch: string, host: string, compiler: string, bits: string)
    ensures Concat(TailPieces(patch, host, compiler, bits))
            == patch + " on " + host + ", compiled by " + compiler + ", " + bits + "-bit"
  {
    var ts := TailPieces(patch, host, compiler, bits);
    assert ts[4..] == [compiler, ", ", bits, "-bit"];
    TrailerSpelled(compiler, bits);
    assert Concat(ts[3..]) == ", compiled by " + (compiler + ", " + bits + "-bit");
    assert Concat(ts[2..]) == host + (", compiled by " + (compiler + ", " + bits + "-bit"));
    assert Concat(ts[1..]) == " on " + (host + (", compiled by " + (compiler + ", " + bits + "-bit")));
  }

  /** The matched text written out literal by literal. */
  lemma {:induction false} MatchTextSpelled(g: Groups, sep: string)
    ensures MatchText(g, sep) == "PostgreSQL " + g.major + "." + g.minor + sep + g.patch + " on " + g.host
                                 + ", compiled by " + g.compiler + ", " + g.bits + "-bit"
  {
    HeadSpelled(g.major);
    TailSpelled(g.patch, g.host, g.compiler, g.bits);
  }

  /** The shortest text the pattern matches has 42 characters. */
  lemma {:induction false} MatchTextLength(g: Groups, sep: string)
    requires WellFormed(g)
    ensures |MatchText(g, sep)| >= 42
  {
    MatchTextSpelled(g, sep);
  }

  lemma {:induction false} SearchFinds(s: string, i: nat, j: nat, g: Groups, sep: string)
    requires i <= j && MatchesAt(s, j, g, sep)
    ensures Search(s, i).Some? && Search(s, i).value.start <= j
    decreases j - i
  {
    if i == j {
      MatchAtFinds(s, j, g, sep);
    } else if MatchAt(s, i).None? {
      SearchFinds(s, i + 1, j, g, sep);
    }
  }

  /** Wherever the pattern matches, String#match finds a match, and it starts there or
      further left. */
  lemma {:induction false} MatchComplete(s: string, j: nat, g: Groups, sep: string)
    requires MatchesAt(s, j, g, sep)
    ensures Match(s).Some? && Match(s).value.start <= j
  {
    SearchFinds(s, 0, j, g, sep);
  }

  /** The search returns the first position where the pattern can be matched. */
  lemma {:induction false} SearchFirst(s: string, i: nat, j: nat)
    requires i <= j <= |s| && MatchAt(s, j).Some?
    requires forall p | i <= p < j :: MatchAt(s, p).None?
    ensures Search(s, i) == Some(MatchData(j, MatchAt(s, j).value.0, MatchAt(s, j).value.1))
    decreases j - i
  {
    if i < j {
      SearchFirst(s, i + 1, j);
    }
  }

  /** Where a match is, the text has "PostgreSQL ", the major and minor numbers, the
      separator, the patch and " on "; then, after the host, ", compiled by "; and, after
      the compiler, ", ", the bit depth and "-bit". */
  lemma {:induction false} MatchParts(s: string, i: nat, g: Groups, sep: string)
    requires MatchesAt(s, i, g, sep)
    ensures var h := "PostgreSQL " + g.major + "." + g.minor + sep + g.patch + " on ";
            && LitAt(s, i, h)
            && LitAt(s, i + |h| + |g.host|, ", compiled by ")
            && LitAt(s, i + |h| + |g.host| + 14 + |g.compiler|, ", " + g.bits + "-bit")
  {
    var h := "PostgreSQL " + g.major + "." + g.minor + sep + g.patch + " on ";
    var trailer := ", " + g.bits + "-bit";
    MatchTextSpelled(g, sep);
    assert MatchText(g, sep) == h + g.host + ", compiled by " + g.compiler + trailer;
    Peel(s, i, h, g.host, g.compiler, trailer);
  }

  lemma {:induction false} Peel(s: string, i: nat, h: string, host: string, compiler: string, trailer: string)
    requires LitAt(s, i, h + host + ", compiled by " + compiler + trailer)
    ensures LitAt(s, i, h) && LitAt(s, i + |h| + |host|, ", compiled by ")
    ensures LitAt(s, i + |h| + |host| + 14 + |compiler|, trailer)
  {
    var withHost := h + host;
    var withCompiler := withHost + ", compiled by " + compiler;
    LitAtConcat(s, i, withCompiler, trailer);
    LitAtConcat(s, i, withHost + ", compiled by ", compiler);
    LitAtConcat(s, i, withHost, ", compiled by ");
    LitAtConcat(s, i, h, host);
  }

  // ---------------------------------------------------------------------------------------
  // Texts without a match

  /** Every match starts with the P of "PostgreSQL ". */
  lemma {:induction false} MatchStartsWithP(s: string, i: nat, g: Groups, sep: string)
    requires MatchesAt(s, i, g, sep)
    ensures i < |s| && s[i] == 'P'
  {
    MatchTextSpelled(g, sep);
    var t := MatchText(g, sep);
    assert t[0] == 'P';
    assert s[i..i + |t|][0] == t[0];
  }

  /** When the pattern fails at 0 and s has no other P, s has no match at all. */
  lemma {:induction false} NoOtherStart(s: string)
    requires 0 < |s| && MatchAt(s, 0).None? && 'P' !in s[1..]
    ensures Match(s).None?
  {
    assert Search(s, 0) == Search(s, 1);
    if Search(s, 1).Some? {
      var m := Search(s, 1).value;
      MatchStartsWithP(s, m.start, m.groups, m.sep);
      assert false;
    }
  }

  /** A text made of a head and a tail: the head is found at 0 and the tail after it. */
  lemma {:induction false} Split(s: string, head: string, tail: string)
    requires s == head + tail
    ensures LitAt(s, 0, head) && s[|head|..] == tail
  {
    assert s[0..|head|] == head;
  }

  /** A numeral holds no P, so a text that has one after its first letter has one in its
      other parts. */
  lemma {:induction false} NoPAfterHead(s: string, lead: string, major: string, tail: string)
    requires IsNumeral(major) && 'P' !in tail && 'P' !in lead
    requires s == "PostgreSQL " + (major + (lead + tail))
    ensures 'P' !in s[1..]
  {
    assert s[1..] == "ostgreSQL " + major + lead + tail;
  }

  /** A minor number of one digit followed by a character that starts no patch and then
      another such character leaves the pattern without a patch. */
  lemma {:induction false} MinorAloneFails(s: string, n: nat)
    requires n + 2 < |s| && IsDigit(s[n]) && StartsNoPatch(s[n + 1]) && StartsNoPatch(s[n + 2])
    ensures MatchMinor(s, n, DigitsEnd(s, n)).None?
  {
    DigitsEndOf(s, n, n + 1);
    SeparatedFails(s, n + 1);
    assert MatchMinor(s, n, n + 1) == MatchMinor(s, n, n);
  }

  /** The pattern at 0 of a text "PostgreSQL <major>.<digit> o...": the head matches, and the
      minor number is left with no patch after it. */
  lemma {:induction false} MissingPatchAtStart(s: string, major: string, tail: string)
    requires IsNumeral(major) && |tail| >= 3 && IsDigit(tail[0]) && tail[1] == ' ' && tail[2] == 'o'
    requires s == ("PostgreSQL " + major + ".") + tail
    ensures MatchAt(s, 0).None?
  {
    var n := 12 + |major|;
    Split(s, "PostgreSQL " + major + ".", tail);
    HeadAtStart(s, major);
    assert s[n] == tail[0] && s[n + 1] == tail[1] && s[n + 2] == tail[2];
    MinorAloneFails(s, n);
  }

  /** The head of the pattern at 0 of a text that begins with "PostgreSQL ", a numeral and
      a dot. */
  lemma {:induction false} HeadAtStart(s: string, major: string)
    requires IsNumeral(major) && LitAt(s, 0, "PostgreSQL " + major + ".")
    ensures MatchAtoms(s, 0, HeadPattern) == Some((HeadPieces(major), 12 + |major|))
  {
    HeadDelimited(major);
    HeadSpelled(major);
    MatchAtomsOf(s, 0, HeadPattern, HeadPieces(major));
  }

  /** "PostgreSQL 9.4 on ...": without a patch after the minor number, nothing matches (when
      no other P could start a match). */
  lemma {:induction false} MissingPatchFails(s: string, major: string, minor: char, rest: string)
    requires IsNumeral(major) && IsDigit(minor) && 'P' !in rest
    requires s == "PostgreSQL " + major + "." + [minor] + " on " + rest
    ensures Match(s).None?
  {
    var tail := [minor] + " on " + rest;
    assert s == ("PostgreSQL " + major + ".") + tail;
    MissingPatchAtStart(s, major, tail);
    assert s == "PostgreSQL " + (major + ("." + tail));
    NoPAfterHead(s, ".", major, [minor] + " on " + rest);
    NoOtherStart(s);
  }
}
