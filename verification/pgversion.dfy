/** The PGVersion class of lib/pgversion.rb: a PostgreSQL release version (major, minor,
    point release or pre-release state and revision) with the host, compiler and bit depth
    of the binary, parsed from the text of SELECT version() and printed back.

    A PGVersion never changes after construction, so a version is a value here: the record
    of its instance variables, restricted to the records the constructor can build. The
    raises of the Ruby code are the Failure results. */
module PGVersion {
  import opened Wrappers
  import opened Decimal
  import VersionRegexp

  // ---------------------------------------------------------------------------------------
  // Data model

  /** The release states, as the symbols :alpha, :beta, :rc and :release. */
  datatype State = Alpha | Beta | Rc | Release

  /** ALLOWED_STATES: all states, from the earliest to the latest. */
  const AllowedStates: seq<State> := [Alpha, Beta, Rc, Release]

  /** Symbol#to_s of a state. */
  function StateName(st: State): string {
    match st
    case Alpha => "alpha"
    case Beta => "beta"
    case Rc => "rc"
    case Release => "release"
  }

  /** ALLOWED_STATES.index(st): the position of st in the list of states. */
  function StateIndex(st: State): (k: nat)
    ensures k < |AllowedStates| && AllowedStates[k] == st
    ensures forall j | 0 <= j < k :: AllowedStates[j] != st
  {
    match st
    case Alpha => 0
    case Beta => 1
    case Rc => 2
    case Release => 3
  }

  /** The instance variables of a PGVersion (nil is None). */
  datatype Fields = Fields(major: nat, minor: nat, point: Option<nat>, state: State,
                           revision: Option<nat>, host: Option<string>,
                           compiler: Option<string>, bitDepth: Option<nat>)

  /** What the constructor establishes: a release has no revision, a pre-release has a
      revision and no point. */
  predicate Valid(f: Fields) {
    if f.state == Release then f.revision.None? else f.point.None? && f.revision.Some?
  }

  /** A PGVersion object. */
  type Version = f: Fields | Valid(f) witness Fields(0, 0, None, Release, None, None, None, None)

  /** The third argument of PGVersion.new: left out (nil), an Integer, or anything else,
      which the constructor reads through its to_s (a Symbol such as :rc1, or the String
      that parse captured). */
  datatype Point = Absent | Int(n: nat) | Token(text: string)

  /** The ArgumentErrors that parse and new raise, with the text their messages quote. */
  datatype Error = CouldNotParse(input: string) | UnknownPointRelease(point: string)

  // ---------------------------------------------------------------------------------------
  // The constructor

  /** A pre-release tag (alpha, beta or rc) followed by a digit starts at j of t. */
  predicate TagAt(t: string, j: nat, st: State) {
    var k := j + |StateName(st)|;
    st != Release && VersionRegexp.LitAt(t, j, StateName(st)) && k < |t| && IsDigit(t[k])
  }

  /** The unanchored search of /(alpha|beta|rc)(\d+)/ from position i: the leftmost
      position where a tag followed by a digit starts, and that tag. */
  function FindTag(t: string, i: nat): (r: Option<(nat, State)>)
    requires i <= |t|
    ensures r.Some? ==> i <= r.value.0 && TagAt(t, r.value.0, r.value.1)
    ensures r.Some? ==> forall j, st | i <= j < r.value.0 :: !TagAt(t, j, st)
    ensures r.None? ==> forall j: nat, st | i <= j :: !TagAt(t, j, st)
    decreases |t| - i
  {
    if i == |t| then None
    else if TagAt(t, i, Alpha) then Some((i, Alpha))
    else if TagAt(t, i, Beta) then Some((i, Beta))
    else if TagAt(t, i, Rc) then Some((i, Rc))
    else FindTag(t, i + 1)
  }

  /** t[k..e] is a whole run of digits: (\d+) matched at k takes exactly it. */
  predicate DigitRun(t: string, k: nat, e: nat) {
    k < e <= |t| && AllDigits(t[k..e]) && (e == |t| || !IsDigit(t[e]))
  }

  /** $2.to_i for (\d+) matched at k: the value of the whole run of digits there. */
  function RunValue(t: string, k: nat): nat
    requires k < |t| && IsDigit(t[k])
  {
    VersionRegexp.DigitsRun(t, k);
    ToNat(t[k..VersionRegexp.DigitsEnd(t, k)])
  }

  /** RunValue reads the whole run of digits: whatever run starts at k, its value. */
  lemma {:induction false} RunValueOf(t: string, k: nat, e: nat)
    requires DigitRun(t, k, e)
    ensures RunValue(t, k) == ToNat(t[k..e])
  {
    VersionRegexp.DigitsEndOf(t, k, e);
  }

  /** The state and revision that /(alpha|beta|rc)(\d+)/ finds in t: the tag of the
      leftmost match and the value of the whole run of digits after it. */
  function Prerelease(t: string): (r: Option<(State, nat)>)
    ensures r.Some? <==> FindTag(t, 0).Some?
    ensures r.None? ==> forall j: nat, st :: !TagAt(t, j, st)
    ensures r.Some? ==> r.value.0 != Release
    ensures FindTag(t, 0).Some? ==>
              var f := FindTag(t, 0).value;
              r == Some((f.1, RunValue(t, f.0 + |StateName(f.1)|)))
  {
    var f := FindTag(t, 0);
    if f.None? then None else Some((f.value.1, RunValue(t, f.value.0 + |StateName(f.value.1)|)))
  }

  /** PGVersion.new(major, minor, point, host:, compiler:, bit_depth:). */
  function Make(major: nat, minor: nat, point: Point, host: Option<string>,
                compiler: Option<string>, bitDepth: Option<nat>): (r: Result<Version, Error>)
    ensures r.Failure? <==> point.Token? && forall j: nat, st :: !TagAt(point.text, j, st)
    ensures r.Failure? ==> r.error == UnknownPointRelease(point.text)
    ensures r.Success? ==> && r.value.major == major && r.value.minor == minor
                           && r.value.host == host && r.value.compiler == compiler
                           && r.value.bitDepth == bitDepth
    ensures r.Success? ==> (r.value.state == Release <==> !point.Token?)
    ensures r.Success? && point.Int? ==> r.value.point == Some(point.n)
    ensures r.Success? && point.Absent? ==> r.value.point.None?
    ensures r.Success? && point.Token? ==>
              r.value.revision.Some? && Prerelease(point.text) == Some((r.value.state, r.value.revision.value))
  {
    match point
    case Absent => Success(Fields(major, minor, None, Release, None, host, compiler, bitDepth))
    case Int(n) => Success(Fields(major, minor, Some(n), Release, None, host, compiler, bitDepth))
    case Token(text) =>
      match Prerelease(text)
      case None => Failure(UnknownPointRelease(text))
      case Some((st, revision)) =>
        Success(Fields(major, minor, None, st, Some(revision), host, compiler, bitDepth))
  }

  /** A tag followed by digits is read as that state and the value of the digits (leading
      zeros carry no weight: rc01 is rc 1). */
  lemma {:induction false} PrereleaseDigits(st: State, d: string)
    requires st != Release && |d| > 0 && AllDigits(d)
    ensures Prerelease(StateName(st) + d) == Some((st, ToNat(d)))
  {
    var name := StateName(st);
    var t := name + d;
    var k := |name|;
    TagFirst(st, d);
    assert t[k..|t|] == d;
    assert Prerelease(t) == Some((st, RunValue(t, k)));
    RunValueOf(t, k, |t|);
  }

  /** A tag followed by a numeral is read back as that state and number. */
  lemma {:induction false} PrereleaseOf(st: State, n: nat)
    requires st != Release
    ensures Prerelease(StateName(st) + FromNat(n)) == Some((st, n))
  {
    PrereleaseDigits(st, FromNat(n));
    ToNatFromNat(n);
  }

  /** The search finds the tag at the start of a tag followed by digits. */
  lemma {:induction false} TagFirst(st: State, d: string)
    requires st != Release && |d| > 0 && AllDigits(d)
    ensures FindTag(StateName(st) + d, 0) == Some((0, st))
  {
    var name := StateName(st);
    var t := name + d;
    assert t[0..|name|] == name && t[|name|] == d[0];
    assert TagAt(t, 0, st);
    assert t[0] == name[0];
  }

  /** new with a Symbol such as :rc1 makes a pre-release in that state with that revision. */
  lemma {:induction false} MakeTagged(major: nat, minor: nat, st: State, n: nat, host: Option<string>,
                                      compiler: Option<string>, bitDepth: Option<nat>)
    requires st != Release
    ensures Make(major, minor, Token(StateName(st) + FromNat(n)), host, compiler, bitDepth)
            == Success(Fields(major, minor, None, st, Some(n), host, compiler, bitDepth))
  {
    PrereleaseOf(st, n);
  }

  /** The tag may sit anywhere in the point's text: new(9, 1, :xrc1y) is 9.1rc1. */
  lemma {:induction false} MakeInside()
    ensures Make(9, 1, Token("xrc1y"), None, None, None)
            == Success(Fields(9, 1, None, Rc, Some(1), None, None, None))
  {
    var t := "xrc1y";
    assert t[0] == 'x' && t[1] == 'r' && t[2] == 'c' && t[3] == '1' && t[4] == 'y';
    NoTagAt(t, 0);
    assert t[1..3] == "rc";
    assert TagAt(t, 1, Rc);
    assert FindTag(t, 1) == Some((1, Rc));
    VersionRegexp.DigitsEndOf(t, 3, 4);
    assert t[3..4] == "1";
  }

  /** new with a point that holds no tag followed by a digit, such as :gamma1, raises. */
  lemma {:induction false} MakeUnknown()
    ensures Make(9, 4, Token("gamma1"), None, None, None) == Failure(UnknownPointRelease("gamma1"))
  {
    var t := "gamma1";
    assert t[0] == 'g' && t[1] == 'a' && t[2] == 'm' && t[3] == 'm' && t[4] == 'a' && t[5] == '1';
    NoTagAt(t, 5);
    NoTagAt(t, 4);
    NoTagAt(t, 3);
    NoTagAt(t, 2);
    NoTagAt(t, 1);
    NoTagAt(t, 0);
  }

  /** The search for a tag moves on from a position whose letter starts no tag, or whose
      next letter is not the second letter of any tag. */
  lemma {:induction false} NoTagAt(t: string, i: nat)
    requires i < |t|
    requires (t[i] != 'a' && t[i] != 'b' && t[i] != 'r')
             || (i + 1 < |t| && t[i + 1] != 'l' && t[i + 1] != 'e' && t[i + 1] != 'c')
    ensures FindTag(t, i) == FindTag(t, i + 1)
  {
    if VersionRegexp.LitAt(t, i, "alpha") {
      FirstLetters(t, i, "alpha");
    }
    if VersionRegexp.LitAt(t, i, "beta") {
      FirstLetters(t, i, "beta");
    }
    if VersionRegexp.LitAt(t, i, "rc") {
      FirstLetters(t, i, "rc");
    }
  }

  lemma {:induction false} FirstLetters(t: string, i: nat, lit: string)
    requires |lit| >= 2 && VersionRegexp.LitAt(t, i, lit)
    ensures i + 1 < |t| && t[i] == lit[0] && t[i + 1] == lit[1]
  {
    assert t[i..i + |lit|][0] == lit[0] && t[i..i + |lit|][1] == lit[1];
  }

  // ---------------------------------------------------------------------------------------
  // Queries

  predicate IsRelease(v: Version) { v.state == Release }
  predicate IsRc(v: Version) { v.state == Rc }
  predicate IsBeta(v: Version) { v.state == Beta }
  predicate IsAlpha(v: Version) { v.state == Alpha }

  /** Exactly one of release?, rc?, beta? and alpha? holds, and which one says how the
      version was made. */
  lemma {:induction false} OneStateHolds(v: Version)
    ensures IsRelease(v) || IsRc(v) || IsBeta(v) || IsAlpha(v)
    ensures !(IsRelease(v) && (IsRc(v) || IsBeta(v) || IsAlpha(v)))
    ensures !(IsRc(v) && (IsBeta(v) || IsAlpha(v))) && !(IsBeta(v) && IsAlpha(v))
    ensures IsRelease(v) <==> v.revision.None?
    ensures !IsRelease(v) ==> v.point.None?
  {
  }

  /** major_minor: "#{major}.#{minor}". */
  function MajorMinor(v: Version): string {
    FromNat(v.major) + "." + FromNat(v.minor)
  }

  /** major_minor names exactly the major and minor numbers: it ignores the point, state
      and revision, and different major.minor pairs print differently. */
  lemma {:induction false} MajorMinorSame(v: Version, w: Version)
    ensures MajorMinor(v) == MajorMinor(w) <==> v.major == w.major && v.minor == w.minor
  {
    if MajorMinor(v) == MajorMinor(w) {
      SplitAtDot(FromNat(v.major), FromNat(v.minor), FromNat(w.major), FromNat(w.minor));
      FromNatInjective(v.major, w.major);
      FromNatInjective(v.minor, w.minor);
    }
  }

  /** The part of to_s after major_minor: ".#{point}" for a release with a point, nothing
      for a release without, "#{state}#{revision}" for a pre-release. */
  function PatchText(v: Version): string {
    if v.state == Release then
      if v.point.None? then "" else "." + FromNat(v.point.value)
    else StateName(v.state) + FromNat(v.revision.value)
  }

  /** to_s: the text version() prints, with each of host, compiler and bit depth appended
      only when it is set. */
  function ToString(v: Version): string {
    "PostgreSQL " + MajorMinor(v) + PatchText(v)
    + (if v.host.Some? then " on " + v.host.value else "")
    + (if v.compiler.Some? then ", compiled by " + v.compiler.value else "")
    + (if v.bitDepth.Some? then ", " + FromNat(v.bitDepth.value) + "-bit" else "")
  }

  /** to_s always begins with the version proper, and is no longer than it exactly when
      host, compiler and bit depth are all unset. */
  lemma {:induction false} ToStringCore(v: Version)
    ensures "PostgreSQL " + MajorMinor(v) + PatchText(v) <= ToString(v)
    ensures |ToString(v)| == |"PostgreSQL " + MajorMinor(v) + PatchText(v)|
            <==> v.host.None? && v.compiler.None? && v.bitDepth.None?
  {
    var core := "PostgreSQL " + MajorMinor(v) + PatchText(v);
    var on := if v.host.Some? then " on " + v.host.value else "";
    var compiled := if v.compiler.Some? then ", compiled by " + v.compiler.value else "";
    var bits := if v.bitDepth.Some? then ", " + FromNat(v.bitDepth.value) + "-bit" else "";
    assert ToString(v) == core + (on + compiled + bits);
    assert core <= core + (on + compiled + bits);
  }

  // ---------------------------------------------------------------------------------------
  // Comparison

  /** Integer#<=>. */
  function Spaceship(x: int, y: int): (c: int)
    ensures c == -1 <==> x < y
    ensures c == 0 <==> x == y
    ensures c == 1 <==> x > y
  {
    if x < y then -1 else if x > y then 1 else 0
  }

  /** <=>: by major, then minor, then state, then point (a missing point ranks above every
      point) or revision. Host, compiler and bit depth take no part. */
  function Compare(a: Version, b: Version): (c: int)
    ensures -1 <= c <= 1
  {
    if a.major < b.major then -1
    else if a.major > b.major then 1
    else if a.minor < b.minor then -1
    else if a.minor > b.minor then 1
    else
      var ai := StateIndex(a.state);
      var bi := StateIndex(b.state);
      if ai < bi then -1
      else if ai > bi then 1
      else if a.state == Release then
        if a.point.None? && b.point.None? then 0
        else if b.point.None? then -1
        else if a.point.None? then 1
        else Spaceship(a.point.value, b.point.value)
      else Spaceship(a.revision.value, b.revision.value)
  }

  // ---------------------------------------------------------------------------------------
  // Parsing

  /** /\A\d+\Z/ on a captured patch group. */
  predicate IsNumber(p: string) {
    |p| > 0 && AllDigits(p)
  }

  /** A patch group that is not a number starts with a tag and a digit. */
  lemma {:induction false} TaggedPatchHasTag(p: string)
    requires VersionRegexp.IsPatch(p) && !IsNumber(p)
    ensures TagAt(p, 0, Alpha) || TagAt(p, 0, Beta) || TagAt(p, 0, Rc)
  {
    if VersionRegexp.Tagged(p, "alpha") {
      assert p[..5] == "alpha" && IsDigit(p[5..][0]);
    } else if VersionRegexp.Tagged(p, "beta") {
      assert p[..4] == "beta" && IsDigit(p[4..][0]);
    } else {
      assert p[..2] == "rc" && IsDigit(p[2..][0]);
    }
  }

  /** The point argument parse passes to new for a captured patch group. */
  function PointOf(p: string): (r: Point)
    requires VersionRegexp.IsPatch(p)
    ensures r.Int? || r.Token?
    ensures r.Int? <==> IsNumber(p)
    ensures r.Int? ==> r.n == ToNat(p)
    ensures r.Token? ==> r.text == p && exists j: nat, st :: TagAt(p, j, st)
  {
    if IsNumber(p) then Int(ToNat(p))
    else
      TaggedPatchHasTag(p);
      Token(p)
  }

  /** PGVersion.parse: the first match of VERSION_REGEXP in s, its numbers read with
      String#to_i and its patch group turned into a point or a pre-release. */
  function Parse(s: string): (r: Result<Version, Error>)
    ensures r.Failure? <==> VersionRegexp.Match(s).None?
    ensures r.Failure? ==> r.error == CouldNotParse(s)
    ensures r.Success? ==> r.value.host.Some? && r.value.compiler.Some? && r.value.bitDepth.Some?
    ensures r.Success? ==> r.value.point.Some? || r.value.state != Release
    ensures r.Success? ==>
              var g := VersionRegexp.Match(s).value.groups;
              && r.value.major == ToNat(g.major) && r.value.minor == ToNat(g.minor)
              && r.value.host == Some(g.host) && r.value.compiler == Some(g.compiler)
              && r.value.bitDepth == Some(ToNat(g.bits))
              && (IsNumber(g.patch) ==> r.value.state == Release && r.value.point == Some(ToNat(g.patch)))
              && (!IsNumber(g.patch) ==>
                    r.value.revision.Some? && Prerelease(g.patch) == Some((r.value.state, r.value.revision.value)))
  {
    match VersionRegexp.Match(s)
    case None => Failure(CouldNotParse(s))
    case Some(m) =>
      var g := m.groups;
      Make(ToNat(g.major), ToNat(g.minor), PointOf(g.patch),
           Some(g.host), Some(g.compiler), Some(ToNat(g.bits)))
  }
}
