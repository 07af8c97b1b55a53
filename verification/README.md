# PGVersion in Dafny

A model of `PGVersion` (lib/pgversion.rb). `PGVersion` is the value type that reads the text
of PostgreSQL's `SELECT version()`, for example

    PostgreSQL 9.2.8 on x86_64-unknown-linux-gnu, compiled by gcc (Ubuntu 4.8.2-16ubuntu6) 4.8.2, 64-bit

It turns that text into major, minor, point or pre-release state and revision, host, compiler
and bit depth. It orders versions (a release without a point ranks above every point release
of its major.minor) and prints them back with `to_s`.

The modules:

- `Wrappers`: `Option` and `Result`. A Ruby `raise ArgumentError` is a `Failure` carrying
  `PGVersion.Error`.
- `Decimal`: `Integer#to_s` (`FromNat`) and `String#to_i` on digit strings (`ToNat`), and
  how the two undo each other.
- `VersionRegexp`: `VERSION_REGEXP` and what `String#match` does with it.
  - `Match` is a direct matcher for this one pattern. It follows Ruby's search order:
    - the leftmost start wins;
    - the greedy `(\d+)` of the minor number gives back digits one at a time;
    - `.?` tries one character (never a newline) before it tries none.
  - `MatchesAt`/`MatchText` describe declaratively the texts the pattern matches.
  - The matcher is proved sound and complete against that description.
- `PGVersion`: the class.
  - The instance variables form the record `Fields`. `Version` is the subset of records the
    constructor can build.
  - `Make` is `initialize`, including its unanchored search for `(alpha|beta|rc)(\d+)`.
  - `Parse`, `Compare` (`<=>`), `MajorMinor`, `ToString` (`to_s`) and the four state
    predicates.
  - A version never changes after construction, so the class is modelled as a value.
- `Ordering`: `<=>` is the lexicographic order on `[major, minor, state index, tier, number]`.
  - From that: reflexivity, antisymmetry, transitivity, and "equal exactly when the releases
    agree".
  - Host, compiler and bit depth play no part.
  - The 21 versions listed in spec/pgversion_spec.rb are in order.
- `RoundTrip`: how `parse` and `to_s` fit together.
  - The five texts of the test suite print and parse as expected.
  - `parse(to_s(v)) == v` holds whenever `to_s` prints every part the pattern needs.
  - Which texts `parse` rejects.

Equality: `PGVersion` includes `Comparable`, so its `==` is `(a <=> b) == 0`. The model keeps
this (`Ordering.CompareZero`, which ignores host, compiler and bit depth) apart from the
structural equality of records. The round-trip lemmas state the stronger structural equality.

Three behaviours of the code are easy to miss. The model follows the code:

- The code requires a patch after the minor number. The `((?:alpha|beta|rc)?\d+)` group of
  `VERSION_REGEXP` is not optional.
  - A release printed without a point is not read back.
  - With a one-digit minor number it has no match when host and compiler hold no P
    (`RoundTrip.MissingPointUnread`).
  - With a longer minor number, `.?` matches nothing and the last digit of the minor number
    is taken as the point, so 10.12 is read back as 10.1.2 (`RoundTrip.MissingPointMisread`).
  - So `parse(to_s(v)) == v` holds only under `RoundTrip.Printable`, not for every version
    with host, compiler and bit depth. It also needs host and compiler free of commas.
- The constructor searches its argument's text for a tag followed by a digit anywhere in it,
  not only at its start. `:xrc1y` gives state `rc` and revision 1 (`PGVersion.MakeInside`).
  It raises only when no such tag occurs.
- The errors are the two `ArgumentError`s of the code: "Could not parse version string" and
  "Unknown point release".

## Model

| member | source | states |
|---|---|---|
| Decimal.FromNat | lib/pgversion.rb:123 | `Integer#to_s` of a non-negative number is a canonical numeral: only digits, and no leading zero unless the number is 0 |
| Decimal.ToNatFromNat | lib/pgversion.rb:49-54 | `String#to_i` reads back exactly the number `Integer#to_s` printed |
| Decimal.FromNatToNat | lib/pgversion.rb:49-54 | printing the number read from a canonical numeral gives back the same text |
| Decimal.FromNatInjective | lib/pgversion.rb:123 | two numbers print the same numeral exactly when they are equal |
| Decimal.SplitAtDot | lib/pgversion.rb:123 | in "a.b" with a made of digits, the first dot marks where a ends, so "a.b" determines a and b |
| PGVersion.StateIndex | lib/pgversion.rb:152 | `ALLOWED_STATES.index(st)`: the first (and only) position of st in the list alpha, beta, rc, release |
| PGVersion.FindTag | lib/pgversion.rb:65-68 | the unanchored search for `(alpha\|beta\|rc)(\d+)` finds the leftmost position where a tag followed by a digit starts; no earlier position has one; it finds nothing exactly when no position has one |
| PGVersion.Prerelease | lib/pgversion.rb:65-68 | the token regex matches exactly when the leftmost search finds a tag followed by a digit; when it finds none, no position of the text holds one; when it finds one, the state is the tag of that leftmost match (never release) and the revision is the value of the digits right after it |
| PGVersion.RunValueOf | lib/pgversion.rb:66-68 | `$2.to_i` of the greedy `(\d+)` is the value of the whole run of digits: for every maximal run of digits starting at that position, the value of that run |
| PGVersion.PrereleaseDigits | lib/pgversion.rb:65-68 | a tag followed by nothing but digits is read as that state and the value of all those digits (leading zeros carry no weight) |
| PGVersion.Make | lib/pgversion.rb:58-76 | new raises "Unknown point release" with the token exactly when the third argument is a token without a tag followed by a digit; otherwise major, minor, host, compiler and bit depth are kept; the state is release exactly when the third argument is nil or an Integer; and the point is that Integer, or nil; for a token, the state and revision are what the token regex reads from its text |
| PGVersion.PrereleaseOf | lib/pgversion.rb:65-68 | a tag followed by a numeral is read as that state and that number |
| PGVersion.MakeTagged | lib/pgversion.rb:58-76 | new with a token such as :rc1 builds state rc, revision 1, no point, with the given host, compiler and bit depth |
| PGVersion.MakeInside | lib/pgversion.rb:65-71 | new(9, 1, :xrc1y) finds rc1 inside the token and builds state rc, revision 1, no point |
| PGVersion.MakeUnknown | lib/pgversion.rb:69-71 | new(9, 4, :gamma1) raises "Unknown point release: gamma1" |
| PGVersion.OneStateHolds | lib/pgversion.rb:115-118 | exactly one of release?, rc?, beta?, alpha? holds; release? exactly when there is no revision; a pre-release has no point |
| PGVersion.MajorMinorSame | lib/pgversion.rb:122-124 | major_minor depends on major and minor only, and two versions print the same major_minor exactly when both agree |
| PGVersion.ToStringCore | lib/pgversion.rb:126-143 | to_s always begins with "PostgreSQL ", major_minor and the patch, and has nothing after them exactly when host, compiler and bit depth are all unset |
| PGVersion.Spaceship | lib/pgversion.rb:106 | `Integer#<=>` is -1, 0 or 1 exactly when the first number is smaller, equal or larger |
| PGVersion.Compare | lib/pgversion.rb:81-113 | `<=>` always answers -1, 0 or 1 |
| PGVersion.TaggedPatchHasTag | lib/pgversion.rb:151 | a patch group that is not all digits starts with alpha, beta or rc followed by a digit |
| PGVersion.PointOf | lib/pgversion.rb:45-48 | the patch group becomes an Integer point exactly when it matches `/\A\d+\Z/`, and then its value is the value of those digits; otherwise it is passed on as a token that holds a tag followed by a digit |
| PGVersion.Parse | lib/pgversion.rb:42-55 | parse raises "Could not parse version string" with the input exactly when `VERSION_REGEXP` matches nowhere; otherwise the fields come from the groups of the match: major, minor and bit depth are the values of groups 1, 2 and 6, host and compiler are groups 4 and 5, an all-digit patch group gives a release with that point, and any other patch group gives the state and revision the token regex reads from it |
| Ordering.CompareIsLex | lib/pgversion.rb:81-113 | `<=>` is the lexicographic comparison of major, minor, state index, the tier of a missing point, and point or revision |
| Ordering.RankSame | lib/pgversion.rb:81-113 | two versions have the same rank exactly when major, minor, state, point and revision agree |
| Ordering.LexZero | lib/pgversion.rb:81-113 | the lexicographic comparison is 0 exactly when the sequences are equal |
| Ordering.LexAntisymmetric | lib/pgversion.rb:81-113 | swapping the arguments negates the lexicographic comparison |
| Ordering.LexTransitive | lib/pgversion.rb:81-113 | the lexicographic comparison is transitive, strictly so when one step is strict |
| Ordering.CompareReflexive | lib/pgversion.rb:81-113 | every version compares 0 to itself |
| Ordering.CompareAntisymmetric | lib/pgversion.rb:81-113 | `b <=> a` is `-(a <=> b)` |
| Ordering.CompareTransitive | lib/pgversion.rb:81-113 | if a is at most b and b is at most c, then a is at most c, and strictly below when either step is strict |
| Ordering.CompareZero | lib/pgversion.rb:6 | Comparable's `==`: `<=>` is 0 exactly when major, minor, state, point and revision agree, whatever the host, compiler and bit depth |
| Ordering.MetadataIgnored | spec/pgversion_spec.rb:46-55 | versions that differ only in host, compiler or bit depth compare the same way to every version |
| Ordering.MissingPointHighest | lib/pgversion.rb:98-107 | a release without a point is above every other version of its major.minor, and equal to another release without a point |
| Ordering.NewMade | spec/pgversion_spec.rb:57-78 | the listed versions are what new builds from their arguments |
| Ordering.OrderedBelow | spec/pgversion_spec.rb:57-78 | each listed version is below every later one |
| Ordering.OrderedCompare | spec/pgversion_spec.rb:79-90 | for every pair in the list, `l <=> r` is the comparison of their positions |
| Ordering.OrderedMajorMinor | spec/pgversion_spec.rb:30-44 | the nine 8.3 versions print "8.3" as major_minor |
| VersionRegexp.Search | lib/pgversion.rb:151 | a match found from position i starts at or after i, and the pattern matches there |
| VersionRegexp.Match | lib/pgversion.rb:43 | a match that `String#match` returns is a real match of the pattern |
| VersionRegexp.DigitsRun | lib/pgversion.rb:151 | a greedy `\d+` takes only digits, and stops at a non-digit or at the end |
| VersionRegexp.FieldRun | lib/pgversion.rb:151 | a greedy `[^,]+` takes no comma, and stops at a comma or at the end |
| VersionRegexp.MatchAtSound | lib/pgversion.rb:151 | whatever the matcher finds at a position is a match of the pattern there |
| VersionRegexp.MatchAtFinds | lib/pgversion.rb:151 | wherever the pattern matches, the matcher finds a match at that position |
| VersionRegexp.MatchAtOf | lib/pgversion.rb:151 | where the text has the pattern with a non-digit separator, the matcher returns exactly those groups |
| VersionRegexp.MatchAtOfTagged | lib/pgversion.rb:151 | where the text has the pattern with a tagged patch and no separator, the matcher returns exactly those groups |
| VersionRegexp.MatchAtOfJoined | lib/pgversion.rb:151 | where the text has the pattern with a one-digit patch right after the minor number, the matcher returns exactly those groups (the minor number gives back its last digit) |
| VersionRegexp.MatchComplete | lib/pgversion.rb:43 | if the pattern matches anywhere, `String#match` finds a match there or further left |
| VersionRegexp.SearchFirst | lib/pgversion.rb:43 | `String#match` returns the match at the first position where the pattern matches |
| VersionRegexp.MatchTextLength | lib/pgversion.rb:151 | every text the pattern matches has at least 42 characters |
| VersionRegexp.MatchParts | lib/pgversion.rb:151 | a match holds, in order, "PostgreSQL ", the numbers, the patch and " on ", then ", compiled by ", then ", ", the bit depth and "-bit" |
| VersionRegexp.MatchStartsWithP | lib/pgversion.rb:151 | every match starts at a P |
| VersionRegexp.MinorAloneFails | lib/pgversion.rb:151 | a one-digit minor number followed by two characters that cannot start a patch (such as " o") leaves the pattern without a patch |
| VersionRegexp.MissingPatchFails | lib/pgversion.rb:151 | "PostgreSQL M.m on ..." has no match when no other P could start one |
| RoundTrip.PatchGroupIsPatch | lib/pgversion.rb:127-131 | the patch to_s prints is a patch group of the pattern, and is all digits exactly for a release |
| RoundTrip.PrintedText | lib/pgversion.rb:126-143 | the text of a printable version is exactly the text the pattern matches with the version's own groups |
| RoundTrip.MatchPrinted | lib/pgversion.rb:43 | `String#match` finds the whole text of a printable version, from its start, with the version's own groups |
| RoundTrip.ParsePrinted | lib/pgversion.rb:42-55 | parse(to_s(v)) is v for every version with a point or a pre-release state, comma-free host and compiler, and a bit depth |
| RoundTrip.ExampleMade | spec/pgversion_spec.rb:5-15 | the five example versions are what new builds from the test suite's arguments, among them the Symbols :rc1, :beta2 and :alpha3 |
| RoundTrip.ExamplePrinted | spec/pgversion_spec.rb:23-27 | each of the five example versions prints as its example text |
| RoundTrip.ExampleParsed | spec/pgversion_spec.rb:17-21 | each of the five example texts parses into its example version |
| RoundTrip.ParseFails | lib/pgversion.rb:43-44 | parse raises exactly when the pattern matches at no position with any groups |
| RoundTrip.ParsedShape | lib/pgversion.rb:42-55 | a text that parses contains "PostgreSQL ", a major number, a dot, a minor number, at most one separator, a patch and " on "; it also contains ", compiled by ", and ", " with a digit-only bit depth and "-bit" |
| RoundTrip.ParseShort | lib/pgversion.rb:43-44 | texts shorter than 42 characters, the empty text among them, are rejected |
| RoundTrip.MissingPointMisread | lib/pgversion.rb:126-151 | a release without a point whose minor number has two digits or more prints a text that parses as the release whose minor number loses its last digit and whose point is that digit |
| RoundTrip.MissingPointUnread | lib/pgversion.rb:126-151 | a release without a point whose minor number has one digit prints a text that parse rejects (when host and compiler hold no P) |

## Left out

- Negative and non-Integer third arguments, and `Fixnum` itself. The point is a `nat`.
  - The model follows Ruby 2.4 to 3.1, where `Fixnum` is a deprecated alias of `Integer`.
  - Before Ruby 2.4, a digit patch of 2^62 or more becomes a `Bignum` in parse. It fails
    `is_a?(Fixnum)` (lib/pgversion.rb:61), takes the token path and raises "Unknown point
    release". The model reads it as a point.
  - Ruby 3.2 removed `Fixnum`. There, `initialize` fails with a `NameError` on any non-nil
    point.
  - Non-Integer, non-token arguments such as Floats are not modelled. Every other argument
    is modelled by the text its `to_s` gives (`PGVersion.Token`).
- Major, minor and bit depth are `nat`. `new` accepts anything, and only parse makes them
  numbers.
- Host and compiler are either nil (`None`) or a string. The model has no `false`.
  - An empty string is printed, as in Ruby.
- The exception classes and the full message texts. The model keeps only the kind of error
  and the text it quotes.
- The operators Comparable derives from `<=>` (`<`, `between?`, `clamp`). They follow from
  `Compare` and its laws. Method visibility and the `VERSION` constant are also left out.
- PGVersion.MajorMinor, PGVersion.PatchText, PGVersion.ToString and the four state
  predicates have no contract of their own. What they promise is stated by
  PGVersion.MajorMinorSame, PGVersion.OneStateHolds, PGVersion.ToStringCore,
  RoundTrip.ExamplePrinted and the round-trip lemmas.
- RoundTrip.MissingPointUnread and VersionRegexp.MissingPatchFails: stated only for texts
  with no P after the first character.
  - A P elsewhere could start another match further right. Its absence is what lets the
    lemma rule out every later start.
- A text whose bit depth is not a number, or that lacks " on " or ", compiled by ", is
  covered by RoundTrip.ParsedShape and RoundTrip.ParseFails (parse rejects it because no
  match has that shape). There is no separate lemma for each literal.
- The test suite's `eq` is Comparable's `==`. RoundTrip.ExampleParsed proves the stronger
  structural equality.
