/** How PGVersion#to_s and PGVersion.parse fit together: parse reads back every version that
    to_s prints in full, the examples of the library's own test suite are parsed and
    printed as expected, and parse rejects texts that do not have the shape of version(). */
module RoundTrip {
  import opened Wrappers
  import opened Decimal
  import opened VersionRegexp
  import opened PGVersion

  // ---------------------------------------------------------------------------------------
  // The texts to_s prints

  /** Versions whose text has every part VERSION_REGEXP asks for: a point or a pre-release
      tag after major.minor, and a host, a compiler and a bit depth, where host and compiler
      hold no comma. */
  predicate Printable(v: Version) {
    && (v.state != Release || v.point.Some?)
    && v.host.Some? && IsField(v.host.value)
    && v.compiler.Some? && IsField(v.compiler.value)
    && v.bitDepth.Some?
  }

  /** The patch group of a printed version: the point, or the state and the revision. */
  function PatchGroup(v: Version): string
    requires v.state != Release || v.point.Some?
  {
    if v.state == Release then FromNat(v.point.value) else StateName(v.state) + FromNat(v.revision.value)
  }

  /** What `.?` consumes in a printed version: the dot before a point, nothing before a tag. */
  function Separator(v: Version): string {
    if v.state == Release then "." else []
  }

  /** The groups VERSION_REGEXP captures in the text of v. */
  function PrintedGroups(v: Version): Groups
    requires Printable(v)
  {
    Groups(FromNat(v.major), FromNat(v.minor), PatchGroup(v),
           v.host.value, v.compiler.value, FromNat(v.bitDepth.value))
  }

  lemma {:induction false} PatchGroupIsPatch(v: Version)
    requires v.state != Release || v.point.Some?
    ensures IsPatch(PatchGroup(v))
    ensures IsNumber(PatchGroup(v)) <==> v.state == Release
  {
    var p := PatchGroup(v);
    if v.state != Release {
      var tag := StateName(v.state);
      assert p[..|tag|] == tag && p[|tag|..] == FromNat(v.revision.value);
      assert !IsDigit(p[0]);
      assert Tagged(p, tag);
    }
  }

  /** to_s with host, compiler and bit depth all set. */
  lemma {:induction false} ToStringSpelled(v: Version)
    requires v.host.Some? && v.compiler.Some? && v.bitDepth.Some?
    ensures ToString(v) == "PostgreSQL " + MajorMinor(v) + PatchText(v) + " on " + v.host.value
                           + ", compiled by " + v.compiler.value + ", " + FromNat(v.bitDepth.value) + "-bit"
  {
    Regroup("PostgreSQL " + MajorMinor(v) + PatchText(v), " on ", v.host.value);
    Regroup("PostgreSQL " + MajorMinor(v) + PatchText(v) + " on " + v.host.value, ", compiled by ", v.compiler.value);
    var head := "PostgreSQL " + MajorMinor(v) + PatchText(v) + " on " + v.host.value + ", compiled by " + v.compiler.value;
    assert head + (", " + FromNat(v.bitDepth.value) + "-bit") == head + ", " + FromNat(v.bitDepth.value) + "-bit";
  }

  lemma {:induction false} Regroup(a: string, b: string, c: string)
    ensures a + (b + c) == a + b + c
  {
  }

  /** Two spellings of one text: with major.minor and the patch text as to_s builds them,
      and with the pieces the pattern captures. */
  lemma {:induction false} SameText(mm: string, pt: string, major: string, minor: string, sep: string,
                                    patch: string, host: string, compiler: string, bits: string)
    requires mm + pt == major + "." + minor + sep + patch
    ensures "PostgreSQL " + mm + pt + " on " + host + ", compiled by " + compiler + ", " + bits + "-bit"
         == "PostgreSQL " + major + "." + minor + sep + patch + " on " + host
            + ", compiled by " + compiler + ", " + bits + "-bit"
  {
    assert "PostgreSQL " + mm + pt == "PostgreSQL " + (mm + pt);
  }

  lemma {:induction false} PrintedWellFormed(v: Version)
    requires Printable(v)
    ensures WellFormed(PrintedGroups(v)) && IsSeparator(Separator(v))
  {
    PatchGroupIsPatch(v);
  }

  /** The text of a printable version is exactly what the pattern matches with its groups. */
  lemma {:induction false} PrintedText(v: Version)
    requires Printable(v)
    ensures ToString(v) == MatchText(PrintedGroups(v), Separator(v))
  {
    var g := PrintedGroups(v);
    MatchTextSpelled(g, Separator(v));
    ToStringSpelled(v);
    assert MajorMinor(v) + PatchText(v) == g.major + "." + g.minor + Separator(v) + g.patch;
    SameText(MajorMinor(v), PatchText(v), g.major, g.minor, Separator(v), g.patch, g.host, g.compiler, g.bits);
  }

  /** String#match finds the whole text of a printable version, with its own groups. */
  lemma {:induction false} MatchPrinted(v: Version)
    requires Printable(v)
    ensures Match(ToString(v)) == Some(MatchData(0, PrintedGroups(v), Separator(v)))
  {
    var s, g := ToString(v), PrintedGroups(v);
    PrintedWellFormed(v);
    PrintedText(v);
    assert s[0..|s|] == s;
    if v.state == Release {
      MatchAtOf(s, 0, g, ".");
    } else {
      PatchGroupIsPatch(v);
      MatchAtOfTagged(s, 0, g);
    }
    MatchAtStart(s);
  }

  /** parse(to_s(v)) gives v back whenever to_s prints all the parts parse looks for. */
  lemma {:induction false} ParsePrinted(v: Version)
    requires Printable(v)
    ensures Parse(ToString(v)) == Success(v)
  {
    var g := PrintedGroups(v);
    MatchPrinted(v);
    PatchGroupIsPatch(v);
    ToNatFromNat(v.major);
    ToNatFromNat(v.minor);
    ToNatFromNat(v.bitDepth.value);
    if v.state == Release {
      ToNatFromNat(v.point.value);
    } else {
      MakeTagged(v.major, v.minor, v.state, v.revision.value, v.host, v.compiler, v.bitDepth);
    }
  }

  // ---------------------------------------------------------------------------------------
  // The examples of the test suite

  const Host := "x86_64-unknown-linux-gnu"
  const Compiler := "gcc (Ubuntu 4.8.2-16ubuntu6) 4.8.2"

  const Texts: seq<string> := [
    "PostgreSQL 9.2.8 on " + Host + ", compiled by " + Compiler + ", 64-bit",
    "PostgreSQL 9.1rc1 on " + Host + ", compiled by " + Compiler + ", 32-bit",
    "PostgreSQL 9.0beta2 on " + Host + ", compiled by " + Compiler + ", 64-bit",
    "PostgreSQL 8.4alpha3 on " + Host + ", compiled by " + Compiler + ", 64-bit",
    "PostgreSQL 10.0.0 on " + Host + ", compiled by " + Compiler + ", 64-bit"
  ]

  /** The versions of those texts, as PGVersion.new builds them (see ExampleMade). */
  const Versions: seq<Version> := [
    Fields(9, 2, Some(8), Release, None, Some(Host), Some(Compiler), Some(64)),
    Fields(9, 1, None, Rc, Some(1), Some(Host), Some(Compiler), Some(32)),
    Fields(9, 0, None, Beta, Some(2), Some(Host), Some(Compiler), Some(64)),
    Fields(8, 4, None, Alpha, Some(3), Some(Host), Some(Compiler), Some(64)),
    Fields(10, 0, Some(0), Release, None, Some(Host), Some(Compiler), Some(64))
  ]

  /** The arguments the test suite gives PGVersion.new for each example: major, minor,
      point and bit depth, with the host and compiler above. */
  const Arguments: seq<(nat, nat, Point, nat)> := [
    (9, 2, Int(8), 64), (9, 1, Token("rc1"), 32), (9, 0, Token("beta2"), 64),
    (8, 4, Token("alpha3"), 64), (10, 0, Int(0), 64)
  ]

  /** The examples are what PGVersion.new builds from those arguments. */
  lemma {:induction false} ExampleMade(i: nat)
    requires i < |Versions|
    ensures var (major, minor, point, bits) := Arguments[i];
            Make(major, minor, point, Some(Host), Some(Compiler), Some(bits)) == Success(Versions[i])
  {
    if i == 1 {
      assert FromNat(1) == "1";
      ExampleTag(9, 1, Rc, 1, "rc1", 32);
    } else if i == 2 {
      assert FromNat(2) == "2";
      ExampleTag(9, 0, Beta, 2, "beta2", 64);
    } else if i == 3 {
      assert FromNat(3) == "3";
      ExampleTag(8, 4, Alpha, 3, "alpha3", 64);
    }
  }

  lemma {:induction false} ExampleTag(major: nat, minor: nat, st: State, n: nat, text: string, bits: nat)
    requires st != Release && StateName(st) + FromNat(n) == text
    ensures Make(major, minor, Token(text), Some(Host), Some(Compiler), Some(bits))
            == Success(Fields(major, minor, None, st, Some(n), Some(Host), Some(Compiler), Some(bits)))
  {
    MakeTagged(major, minor, st, n, Some(Host), Some(Compiler), Some(bits));
  }

  /** An example text from its beginning up to " on " and its bit depth. */
  lemma {:induction false} ExampleSpelled(v: Version, head: string, bits: string)
    requires v.host == Some(Host) && v.compiler == Some(Compiler) && v.bitDepth.Some?
    requires "PostgreSQL " + MajorMinor(v) + PatchText(v) + " on " == head
    requires ", " + FromNat(v.bitDepth.value) + "-bit" == bits
    ensures ToString(v) == head + Host + ", compiled by " + Compiler + bits
  {
    ToStringSpelled(v);
    var front := head + Host + ", compiled by " + Compiler;
    Regroup(front, ", " + FromNat(v.bitDepth.value), "-bit");
    Regroup(front, ", ", FromNat(v.bitDepth.value));
  }

  lemma {:induction false} ExampleFields()
    ensures IsField(Host) && IsField(Compiler)
    ensures FromNat(0) == "0" && FromNat(1) == "1" && FromNat(2) == "2" && FromNat(3) == "3"
    ensures FromNat(4) == "4" && FromNat(8) == "8" && FromNat(9) == "9"
    ensures FromNat(10) == "10" && FromNat(32) == "32" && FromNat(64) == "64"
  {
  }

  lemma {:induction false} Example928()
    ensures ToString(Versions[0]) == Texts[0] && Printable(Versions[0])
  {
    ExampleFields();
    ExampleSpelled(Versions[0], "PostgreSQL 9.2.8 on ", ", 64-bit");
  }

  lemma {:induction false} Example91rc1()
    ensures ToString(Versions[1]) == Texts[1] && Printable(Versions[1])
  {
    ExampleFields();
    ExampleSpelled(Versions[1], "PostgreSQL 9.1rc1 on ", ", 32-bit");
  }

  lemma {:induction false} Example90beta2()
    ensures ToString(Versions[2]) == Texts[2] && Printable(Versions[2])
  {
    ExampleFields();
    ExampleSpelled(Versions[2], "PostgreSQL 9.0beta2 on ", ", 64-bit");
  }

  lemma {:induction false} Example84alpha3()
    ensures ToString(Versions[3]) == Texts[3] && Printable(Versions[3])
  {
    ExampleFields();
    ExampleSpelled(Versions[3], "PostgreSQL 8.4alpha3 on ", ", 64-bit");
  }

  lemma {:induction false} Example1000()
    ensures ToString(Versions[4]) == Texts[4] && Printable(Versions[4])
  {
    ExampleFields();
    ExampleSpelled(Versions[4], "PostgreSQL 10.0.0 on ", ", 64-bit");
  }

  /** Each example version prints as its text. */
  lemma {:induction false} ExamplePrinted(i: nat)
    requires i < |Texts|
    ensures ToString(Versions[i]) == Texts[i] && Printable(Versions[i])
  {
    if i == 0 {
      Example928();
    } else if i == 1 {
      Example91rc1();
    } else if i == 2 {
      Example90beta2();
    } else if i == 3 {
      Example84alpha3();
    } else {
      Example1000();
    }
  }

  /** Each example text parses into its version, and that version prints as the text. */
  lemma {:induction false} ExampleParsed(i: nat)
    requires i < |Texts|
    ensures Parse(Texts[i]) == Success(Versions[i])
  {
    ExamplePrinted(i);
    ParsePrinted(Versions[i]);
  }

  // ---------------------------------------------------------------------------------------
  // Texts that parse rejects

  /** parse raises exactly when the pattern matches nowhere in the text. */
  lemma {:induction false} ParseFails(s: string)
    ensures Parse(s).Failure? <==> forall i, g, sep :: !MatchesAt(s, i, g, sep)
  {
    if i, g, sep :| MatchesAt(s, i, g, sep) {
      MatchComplete(s, i, g, sep);
    }
  }

  /** What parse needs of a text: "PostgreSQL ", a major number, a dot, a minor number,
      at most one separating character, a patch and " on "; somewhere ", compiled by "; and
      ", ", a bit depth made of digits and "-bit". A text that lacks one of these (no minor
      number, no patch, a bit depth that is not a number, ...) is rejected. */
  lemma {:induction false} ParsedShape(s: string)
    ensures Parse(s).Success? ==>
              exists i: nat, major, minor, sep, patch ::
                && IsNumeral(major) && IsNumeral(minor) && IsSeparator(sep) && IsPatch(patch)
                && LitAt(s, i, "PostgreSQL " + major + "." + minor + sep + patch + " on ")
    ensures Parse(s).Success? ==> exists i: nat :: LitAt(s, i, ", compiled by ")
    ensures Parse(s).Success? ==> exists i: nat, bits :: IsNumeral(bits) && LitAt(s, i, ", " + bits + "-bit")
  {
    if Parse(s).Success? {
      var m := Match(s).value;
      MatchParts(s, m.start, m.groups, m.sep);
    }
  }

  /** The shortest text parse accepts has 42 characters; the empty text is rejected. */
  lemma {:induction false} ParseShort(s: string)
    requires |s| < 42
    ensures Parse(s) == Failure(CouldNotParse(s))
  {
    if Match(s).Some? {
      var m := Match(s).value;
      MatchTextLength(m.groups, m.sep);
    }
  }

  // ---------------------------------------------------------------------------------------
  // A release printed without a point

  /** The numeral of a number of two digits or more: the numeral of all but its last digit,
      and that digit. */
  lemma {:induction false} LastDigit(n: nat)
    requires n >= 10
    ensures FromNat(n) == FromNat(n / 10) + FromNat(n % 10)
  {
    assert FromNat(n % 10) == [DigitChar(n % 10)];
  }

  /** What the pattern captures in the text of a release without a point whose minor number
      has two digits or more: the last digit of the minor number is taken for the point. */
  function MisreadGroups(v: Version): Groups
    requires v.minor >= 10 && v.host.Some? && v.compiler.Some? && v.bitDepth.Some?
  {
    Groups(FromNat(v.major), FromNat(v.minor / 10), FromNat(v.minor % 10),
           v.host.value, v.compiler.value, FromNat(v.bitDepth.value))
  }

  lemma {:induction false} MisreadText(v: Version)
    requires v.state == Release && v.point.None? && v.minor >= 10
    requires v.host.Some? && v.compiler.Some? && v.bitDepth.Some?
    ensures ToString(v) == MatchText(MisreadGroups(v), [])
  {
    var g := MisreadGroups(v);
    LastDigit(v.minor);
    MatchTextSpelled(g, []);
    ToStringSpelled(v);
    assert MajorMinor(v) + PatchText(v) == g.major + "." + g.minor + [] + g.patch;
    SameText(MajorMinor(v), PatchText(v), g.major, g.minor, [], g.patch, g.host, g.compiler, g.bits);
  }

  lemma {:induction false} MisreadMatch(v: Version)
    requires v.state == Release && v.point.None? && v.minor >= 10
    requires v.host.Some? && IsField(v.host.value) && v.compiler.Some? && IsField(v.compiler.value)
    requires v.bitDepth.Some?
    ensures Match(ToString(v)) == Some(MatchData(0, MisreadGroups(v), []))
  {
    var s, g := ToString(v), MisreadGroups(v);
    MisreadText(v);
    assert WellFormed(g);
    assert s[0..|s|] == s;
    MatchAtOfJoined(s, 0, g);
    MatchAtStart(s);
  }

  /** to_s prints a release without a point as major.minor, and String#match then reads the
      last digit of a minor number of two digits or more as the point: parse gives back
      another version, 10.12 coming back as 10.1.2. */
  lemma {:induction false} MissingPointMisread(v: Version)
    requires v.state == Release && v.point.None? && v.minor >= 10
    requires v.host.Some? && IsField(v.host.value) && v.compiler.Some? && IsField(v.compiler.value)
    requires v.bitDepth.Some?
    ensures Parse(ToString(v)) == Success(v.(minor := v.minor / 10, point := Some(v.minor % 10)))
  {
    MisreadMatch(v);
    ToNatFromNat(v.major);
    ToNatFromNat(v.minor / 10);
    ToNatFromNat(v.minor % 10);
    ToNatFromNat(v.bitDepth.value);
  }

  /** What follows " on " in the text of a version with host, compiler and bit depth. */
  function Trailer(v: Version): (r: string)
    requires v.host.Some? && v.compiler.Some? && v.bitDepth.Some?
    ensures 'P' in r ==> 'P' in v.host.value || 'P' in v.compiler.value
  {
    v.host.value + ", compiled by " + v.compiler.value + ", " + FromNat(v.bitDepth.value) + "-bit"
  }

  lemma {:induction false} UnreadText(v: Version)
    requires v.state == Release && v.point.None? && v.minor < 10
    requires v.host.Some? && v.compiler.Some? && v.bitDepth.Some?
    ensures ToString(v) == "PostgreSQL " + FromNat(v.major) + "." + [DigitChar(v.minor)] + " on " + Trailer(v)
  {
    var major, minor, bits := FromNat(v.major), DigitChar(v.minor), FromNat(v.bitDepth.value);
    ToStringSpelled(v);
    assert MajorMinor(v) + PatchText(v) == major + "." + [minor];
    SameText(MajorMinor(v), PatchText(v), major, [minor], [], [], v.host.value, v.compiler.value, bits);
    RestOn(major + "." + [minor], v.host.value, v.compiler.value, bits);
  }

  /** With a one-digit minor number and no P in host and compiler, the text of a release
      without a point has no match, and parse raises. */
  lemma {:induction false} MissingPointUnread(v: Version)
    requires v.state == Release && v.point.None? && v.minor < 10
    requires v.host.Some? && 'P' !in v.host.value && v.compiler.Some? && 'P' !in v.compiler.value
    requires v.bitDepth.Some?
    ensures Parse(ToString(v)) == Failure(CouldNotParse(ToString(v)))
  {
    UnreadText(v);
    VersionRegexp.MissingPatchFails(ToString(v), FromNat(v.major), DigitChar(v.minor), Trailer(v));
  }

  /** The trailer after " on " as one piece. */
  lemma {:induction false} RestOn(mm: string, host: string, compiler: string, bits: string)
    ensures "PostgreSQL " + mm + [] + [] + " on " + host + ", compiled by " + compiler + ", " + bits + "-bit"
         == "PostgreSQL " + mm + " on " + (host + ", compiled by " + compiler + ", " + bits + "-bit")
  {
    var front := "PostgreSQL " + mm + " on ";
    assert "PostgreSQL " + mm + [] + [] + " on " == front;
    Regroup(front, host, ", compiled by ");
    Regroup(front, host + ", compiled by ", compiler);
    Regroup(front, host + ", compiled by " + compiler, ", ");
    Regroup(front, host + ", compiled by " + compiler + ", ", bits);
    Regroup(front, host + ", compiled by " + compiler + ", " + bits, "-bit");
  }
}
