/** The order that PGVersion#<=> defines (and that Comparable builds ==, <, > and the other
    comparisons on): it is the lexicographic order of a version's rank, and hence a total
    preorder that ignores host, compiler and bit depth. */
module Ordering {
  import opened Wrappers
  import opened Decimal
  import opened PGVersion

  // ---------------------------------------------------------------------------------------
  // Lexicographic comparison

  /** Lexicographic comparison of two sequences of numbers of the same length, from
      position i on. */
  function Lex(x: seq<int>, y: seq<int>, i: nat): (c: int)
    requires |x| == |y| && i <= |x|
    ensures -1 <= c <= 1
    decreases |x| - i
  {
    if i == |x| then 0
    else if x[i] < y[i] then -1
    else if x[i] > y[i] then 1
    else Lex(x, y, i + 1)
  }

  lemma {:induction false} LexZero(x: seq<int>, y: seq<int>, i: nat)
    requires |x| == |y| && i <= |x|
    ensures Lex(x, y, i) == 0 <==> x[i..] == y[i..]
    decreases |x| - i
  {
    if i < |x| && x[i] == y[i] {
      LexZero(x, y, i + 1);
      assert x[i..] == [x[i]] + x[i + 1..] && y[i..] == [y[i]] + y[i + 1..];
    } else if i < |x| {
      assert x[i..][0] != y[i..][0];
    }
  }

  lemma {:induction false} LexAntisymmetric(x: seq<int>, y: seq<int>, i: nat)
    requires |x| == |y| && i <= |x|
    ensures Lex(x, y, i) == -Lex(y, x, i)
    decreases |x| - i
  {
    if i < |x| && x[i] == y[i] {
      LexAntisymmetric(x, y, i + 1);
    }
  }

  lemma {:induction false} LexTransitive(x: seq<int>, y: seq<int>, z: seq<int>, i: nat)
    requires |x| == |y| == |z| && i <= |x| && Lex(x, y, i) <= 0 && Lex(y, z, i) <= 0
    ensures Lex(x, z, i) == if Lex(x, y, i) == 0 && Lex(y, z, i) == 0 then 0 else -1
    decreases |x| - i
  {
    if i < |x| && x[i] == y[i] == z[i] {
      LexTransitive(x, y, z, i + 1);
    }
  }

  // ---------------------------------------------------------------------------------------
  // The rank of a version

  /** Among releases of one major.minor, the one without a point comes last. */
  function Tier(v: Version): int {
    if v.state == Release && v.point.None? then 1 else 0
  }

  /** The point of a release, the revision of a pre-release. */
  function Number(v: Version): int {
    if v.state == Release then (if v.point.Some? then v.point.value else 0) else v.revision.value
  }

  /** What <=> looks at, most significant first. */
  function Rank(v: Version): seq<int> {
    [v.major, v.minor, StateIndex(v.state), Tier(v), Number(v)]
  }

  /** Two versions have the same rank exactly when they agree on everything but host,
      compiler and bit depth. */
  lemma {:induction false} RankSame(a: Version, b: Version)
    ensures Rank(a) == Rank(b) <==> SameRelease(a, b)
  {
    if Rank(a) == Rank(b) {
      assert Rank(a)[2] == Rank(b)[2] && Rank(a)[3] == Rank(b)[3] && Rank(a)[4] == Rank(b)[4];
    }
  }

  /** a and b name the same release: all fields but host, compiler and bit depth agree. */
  predicate SameRelease(a: Version, b: Version) {
    && a.major == b.major && a.minor == b.minor && a.state == b.state
    && a.point == b.point && a.revision == b.revision
  }

  /** <=> compares versions by the lexicographic order of their ranks. */
  lemma {:induction false} CompareIsLex(a: Version, b: Version)
    ensures Compare(a, b) == Lex(Rank(a), Rank(b), 0)
  {
    var x, y := Rank(a), Rank(b);
    assert Lex(x, y, 4) == Spaceship(Number(a), Number(b));
    assert Lex(x, y, 3) == if Tier(a) != Tier(b) then Spaceship(Tier(a), Tier(b)) else Lex(x, y, 4);
    assert Lex(x, y, 2) == if a.state != b.state then Spaceship(StateIndex(a.state), StateIndex(b.state))
                           else Lex(x, y, 3);
    assert Lex(x, y, 1) == if a.minor != b.minor then Spaceship(a.minor, b.minor) else Lex(x, y, 2);
    assert Lex(x, y, 0) == if a.major != b.major then Spaceship(a.major, b.major) else Lex(x, y, 1);
  }

  // ---------------------------------------------------------------------------------------
  // The laws of the order

  lemma {:induction false} CompareReflexive(a: Version)
    ensures Compare(a, a) == 0
  {
    CompareIsLex(a, a);
    LexZero(Rank(a), Rank(a), 0);
  }

  lemma {:induction false} CompareAntisymmetric(a: Version, b: Version)
    ensures Compare(a, b) == -Compare(b, a)
  {
    CompareIsLex(a, b);
    CompareIsLex(b, a);
    LexAntisymmetric(Rank(a), Rank(b), 0);
  }

  lemma {:induction false} CompareTransitive(a: Version, b: Version, c: Version)
    requires Compare(a, b) <= 0 && Compare(b, c) <= 0
    ensures Compare(a, c) == if Compare(a, b) == 0 && Compare(b, c) == 0 then 0 else -1
  {
    CompareIsLex(a, b);
    CompareIsLex(b, c);
    CompareIsLex(a, c);
    LexTransitive(Rank(a), Rank(b), Rank(c), 0);
  }

  /** Comparable#==: two versions are equal exactly when they name the same release,
      whatever their host, compiler and bit depth. */
  lemma {:induction false} CompareZero(a: Version, b: Version)
    ensures Compare(a, b) == 0 <==> SameRelease(a, b)
  {
    CompareIsLex(a, b);
    LexZero(Rank(a), Rank(b), 0);
    assert Rank(a)[0..] == Rank(a) && Rank(b)[0..] == Rank(b);
    RankSame(a, b);
  }

  /** Replacing host, compiler and bit depth changes no comparison. */
  lemma {:induction false} MetadataIgnored(a: Version, b: Version, c: Version)
    requires SameRelease(a, b)
    ensures Compare(a, c) == Compare(b, c) && Compare(c, a) == Compare(c, b)
  {
    CompareZero(a, b);
    CompareIsLex(a, c);
    CompareIsLex(b, c);
    CompareIsLex(c, a);
    CompareIsLex(c, b);
    RankSame(a, b);
  }

  /** A release without a point ranks above every other version of its major.minor. */
  lemma {:induction false} MissingPointHighest(a: Version, b: Version)
    requires a.state == Release && a.point.None? && a.major == b.major && a.minor == b.minor
    ensures Compare(a, b) == if b.state == Release && b.point.None? then 0 else 1
  {
  }

  // ---------------------------------------------------------------------------------------
  // The ordered list of versions in the library's own examples

  /** The third argument as those examples give it: nil, an Integer, or a Symbol such as
      :alpha1, which is a state's name followed by a number. */
  datatype Arg = Nil | Num(n: nat) | Sym(st: State, n: nat)

  function ArgPoint(a: Arg): Point {
    match a
    case Nil => Absent
    case Num(n) => Int(n)
    case Sym(st, n) => Token(StateName(st) + FromNat(n))
  }

  /** The version PGVersion.new(major, minor, a) builds, for the arguments the examples use. */
  function New(major: nat, minor: nat, a: Arg): Version
    requires a.Sym? ==> a.st != Release
  {
    match a
    case Nil => Fields(major, minor, None, Release, None, None, None, None)
    case Num(n) => Fields(major, minor, Some(n), Release, None, None, None, None)
    case Sym(st, n) => Fields(major, minor, None, st, Some(n), None, None, None)
  }

  /** It is indeed what new builds. */
  lemma {:induction false} NewMade(major: nat, minor: nat, a: Arg)
    requires a.Sym? ==> a.st != Release
    ensures Make(major, minor, ArgPoint(a), None, None, None) == Success(New(major, minor, a))
  {
    if a.Sym? {
      MakeTagged(major, minor, a.st, a.n, None, None, None);
    }
  }

  const Ordered: seq<Version> := [
    New(8, 3, Sym(Alpha, 1)), New(8, 3, Sym(Alpha, 3)), New(8, 3, Sym(Beta, 1)),
    New(8, 3, Sym(Beta, 2)), New(8, 3, Sym(Rc, 1)), New(8, 3, Sym(Rc, 3)),
    New(8, 3, Num(0)), New(8, 3, Num(1)), New(8, 3, Nil),
    New(8, 14, Num(0)), New(9, 4, Num(0)),
    New(10, 0, Sym(Alpha, 1)), New(10, 0, Sym(Alpha, 3)), New(10, 0, Sym(Beta, 1)),
    New(10, 0, Sym(Beta, 2)), New(10, 0, Sym(Rc, 1)), New(10, 0, Sym(Rc, 3)),
    New(10, 0, Num(0)), New(10, 0, Num(2)), New(10, 0, Num(10)), New(10, 0, Nil)
  ]

  lemma {:induction false} OrderedStep(i: nat)
    requires i + 1 < |Ordered|
    ensures Compare(Ordered[i], Ordered[i + 1]) == -1
  {
    if i < 5 {
      assert i == 0 || i == 1 || i == 2 || i == 3 || i == 4;
    } else if i < 10 {
      assert i == 5 || i == 6 || i == 7 || i == 8 || i == 9;
    } else if i < 15 {
      assert i == 10 || i == 11 || i == 12 || i == 13 || i == 14;
    } else {
      assert i == 15 || i == 16 || i == 17 || i == 18 || i == 19;
    }
  }

  lemma {:induction false} OrderedBelow(i: nat, j: nat)
    requires i < j < |Ordered|
    ensures Compare(Ordered[i], Ordered[j]) == -1
    decreases j - i
  {
    OrderedStep(j - 1);
    if i < j - 1 {
      OrderedBelow(i, j - 1);
      CompareTransitive(Ordered[i], Ordered[j - 1], Ordered[j]);
    }
  }

  /** Every version of the list compares to every other as their positions do. */
  lemma {:induction false} OrderedCompare(i: nat, j: nat)
    requires i < |Ordered| && j < |Ordered|
    ensures Compare(Ordered[i], Ordered[j]) == Spaceship(i, j)
  {
    if i < j {
      OrderedBelow(i, j);
    } else if j < i {
      OrderedBelow(j, i);
      CompareAntisymmetric(Ordered[i], Ordered[j]);
    } else {
      CompareReflexive(Ordered[i]);
    }
  }

  /** The first nine versions of the list, all of 8.3, print "8.3" as their major_minor. */
  lemma {:induction false} OrderedMajorMinor(i: nat)
    requires i < 9
    ensures MajorMinor(Ordered[i]) == "8.3"
  {
    assert FromNat(8) == "8" && FromNat(3) == "3";
    assert Ordered[i].major == 8 && Ordered[i].minor == 3 by {
      assert i == 0 || i == 1 || i == 2 || i == 3 || i == 4 || i == 5 || i == 6 || i == 7 || i == 8;
    }
  }
}
