/**
 * The query logic of an earthquake marker: the descending magnitude order,
 * the age code, the depth bucket that picks the fill colour, the decision to
 * draw the "recent" cross, and the threat circle.
 */
module EarthquakeMarker {
  import opened Wrappers
  import opened CommonMarker

  /** The two concrete marker classes a quake is built as (LandQuakeMarker,
      OceanQuakeMarker); their constructors set the isOnLand field. */
  datatype QuakeKind = LandQuake | OceanQuake

  /**
   * The already-parsed data of one earthquake marker. `country` is the
   * "country" property that country attribution writes into a land quake's
   * feature; an ocean quake has none.
   */
  datatype Quake = Quake(
    kind: QuakeKind,
    location: Location,
    magnitude: real,
    depth: real,
    age: string,
    title: string,
    country: Option<string>)

  /** isOnLand(): the field set by the concrete marker class. */
  predicate IsOnLand(q: Quake) {
    q.kind == LandQuake
  }

  // The float 1.6f, widened to double where the threat circle multiplies by it.
  const KmPerMile: real := 1.60000002384185791015625
  const ThresholdIntermediate: real := 70.0
  const ThresholdDeep: real := 300.0

  const PastHour: int := 1
  const PastDay: int := 2
  const PastWeek: int := 3
  const PastMonth: int := 4

  // ---------------------------------------------------------------------
  // compareTo

  /** Float.compare on the non-NaN values the model uses. */
  function FloatCompare(x: real, y: real): int {
    if x < y then -1 else if x > y then 1 else 0
  }

  /** compareTo: the negated comparison of magnitudes, so that the natural
      order of quakes is by descending magnitude. */
  function CompareTo(a: Quake, b: Quake): (r: int)
    ensures r < 0 <==> a.magnitude > b.magnitude
    ensures r == 0 <==> a.magnitude == b.magnitude
    ensures r > 0 <==> a.magnitude < b.magnitude
  {
    -1 * FloatCompare(a.magnitude, b.magnitude)
  }

  /** compareTo is a total preorder: antisymmetric in sign and transitive,
      as Collections.sort requires of a comparator. */
  lemma CompareToIsTotalPreorder(a: Quake, b: Quake, c: Quake)
    ensures CompareTo(a, b) == -CompareTo(b, a)
    ensures CompareTo(a, a) == 0
    ensures CompareTo(a, b) <= 0 && CompareTo(b, c) <= 0 ==> CompareTo(a, c) <= 0
  {
  }

  // ---------------------------------------------------------------------
  // getAgeInt

  function ToLowerChar(c: char): char {
    if 'A' <= c <= 'Z' then (c as int + 32) as char else c
  }

  /** String.toLowerCase on the ASCII letters. */
  function ToLower(s: string): string {
    seq(|s|, i requires 0 <= i < |s| => ToLowerChar(s[i]))
  }

  /** String.contains: `sub` occurs in `s` at some position. */
  predicate Contains(s: string, sub: string)
    decreases |s|
  {
    |sub| <= |s| && (s[..|sub|] == sub || Contains(s[1..], sub))
  }

  /** `sub` occurs in `s` starting at position `i`. */
  predicate OccursAt(s: string, sub: string, i: nat) {
    i + |sub| <= |s| && s[i..i + |sub|] == sub
  }

  /** Contains agrees with the positional definition of a substring. */
  lemma {:induction false} ContainsIffOccurs(s: string, sub: string)
    ensures Contains(s, sub) <==> exists i: nat :: OccursAt(s, sub, i)
  {
    if |sub| <= |s| {
      if s[..|sub|] == sub {
        assert OccursAt(s, sub, 0);
      } else {
        ContainsIffOccurs(s[1..], sub);
        if exists i: nat :: OccursAt(s, sub, i) {
          var i: nat :| OccursAt(s, sub, i);
          assert i != 0;
          assert s[1..][i - 1..i - 1 + |sub|] == s[i..i + |sub|];
          assert OccursAt(s[1..], sub, i - 1);
        }
        if Contains(s[1..], sub) {
          var i: nat :| OccursAt(s[1..], sub, i);
          assert s[1..][i..i + |sub|] == s[i + 1..i + 1 + |sub|];
          assert OccursAt(s, sub, i + 1);
        }
      }
    }
  }

  /** A word with a letter that `s` lacks does not occur in `s`. */
  lemma {:induction false} MissingLetterNotContained(s: string, sub: string, c: char)
    requires c in sub && c !in s
    ensures !Contains(s, sub)
  {
    if |sub| <= |s| {
      assert c !in s[..|sub|];
      assert c !in s[1..];
      MissingLetterNotContained(s[1..], sub, c);
    }
  }

  /** getAgeInt: the age code of an "age" property, decided by a
      case-insensitive substring test with "hour" before "day" before
      "week"; anything else is the oldest code. */
  function AgeCode(age: string): (code: int)
    ensures PastHour <= code <= PastMonth
    ensures code == PastHour <==> Contains(ToLower(age), "hour")
    ensures code == PastDay <==> !Contains(ToLower(age), "hour") && Contains(ToLower(age), "day")
    ensures code == PastWeek <==>
      !Contains(ToLower(age), "hour") && !Contains(ToLower(age), "day") && Contains(ToLower(age), "week")
  {
    var lower := ToLower(age);
    if Contains(lower, "hour") then PastHour
    else if Contains(lower, "day") then PastDay
    else if Contains(lower, "week") then PastWeek
    else PastMonth
  }

  /** A word found at a position is contained. */
  lemma OccursContained(s: string, sub: string, i: nat)
    requires OccursAt(s, sub, i)
    ensures Contains(s, sub)
  {
    ContainsIffOccurs(s, sub);
  }

  /** The four labels of the USGS feed get the four codes, most recent first. */
  lemma AgeCodePastHour(age: string)
    requires age == "Past Hour"
    ensures AgeCode(age) == PastHour
  {
    var lower := ToLower(age);
    assert lower == "past hour";
    OccursContained(lower, "hour", 5);
  }

  lemma AgeCodePastDay(age: string)
    requires age == "Past Day"
    ensures AgeCode(age) == PastDay
  {
    var lower := ToLower(age);
    assert lower == "past day";
    MissingLetterNotContained(lower, "hour", 'h');
    OccursContained(lower, "day", 5);
  }

  lemma AgeCodePastWeek(age: string)
    requires age == "Past Week"
    ensures AgeCode(age) == PastWeek
  {
    var lower := ToLower(age);
    assert lower == "past week";
    assert 'u' !in lower && 'y' !in lower;
    NoHourNoDay(lower);
    OccursContained(lower, "week", 5);
  }

  lemma AgeCodePastMonth(age: string)
    requires age == "Past Month"
    ensures AgeCode(age) == PastMonth
  {
    var lower := ToLower(age);
    assert lower == "past month";
    assert 'u' !in lower && 'y' !in lower && 'k' !in lower;
    NoAgeWord(lower);
  }

  /** A lower-case label without the letters u, y and k mentions no hour,
      day or week. */
  lemma NoAgeWord(lower: string)
    requires 'u' !in lower && 'y' !in lower && 'k' !in lower
    ensures !Contains(lower, "hour") && !Contains(lower, "day") && !Contains(lower, "week")
  {
    NoHourNoDay(lower);
    MissingLetterNotContained(lower, "week", 'k');
  }

  /** A lower-case label without the letters u and y mentions no hour or
      day. */
  lemma NoHourNoDay(lower: string)
    requires 'u' !in lower && 'y' !in lower
    ensures !Contains(lower, "hour") && !Contains(lower, "day")
  {
    MissingLetterNotContained(lower, "hour", 'u');
    MissingLetterNotContained(lower, "day", 'y');
  }

  /** "hour" wins over the other words, and case does not matter: a label
      that mentions a day and hours gets the most recent code. */
  lemma AgeCodeHourWins(age: string)
    requires age == "1 Day 2 HOURS"
    ensures AgeCode(age) == PastHour
  {
    var lower := ToLower(age);
    assert lower == "1 day 2 hours";
    OccursContained(lower, "hour", 8);
  }

  // ---------------------------------------------------------------------
  // The cross drawn by drawMarker

  /** drawMarker draws the cross only for these two exact "age" values. */
  predicate ShowsRecentCross(q: Quake) {
    q.age == "Past Hour" || q.age == "Past Day"
  }

  /** A quake drawn with the cross has one of the two most recent age codes. */
  lemma CrossImpliesRecentAgeCode(q: Quake)
    ensures ShowsRecentCross(q) ==> AgeCode(q.age) <= PastDay
  {
    if q.age == "Past Hour" {
      AgeCodePastHour(q.age);
    } else if q.age == "Past Day" {
      AgeCodePastDay(q.age);
    }
  }

  /** The cross test is case-sensitive equality while the age code is a
      case-insensitive substring test: the two disagree on "past hour". */
  lemma CrossStricterThanAgeCode(q: Quake)
    requires q.age == "past hour"
    ensures AgeCode(q.age) == PastHour && !ShowsRecentCross(q)
  {
    var lower := ToLower(q.age);
    assert lower == "past hour";
    OccursContained(lower, "hour", 5);
  }

  // ---------------------------------------------------------------------
  // colorDetermine

  /** The three fill colours: yellow, blue and red. */
  datatype DepthBucket = Shallow | Intermediate | Deep

  /** colorDetermine: the bucket of a depth in kilometres. */
  function ColorBucket(depth: real): (b: DepthBucket)
    ensures b == Shallow <==> depth < ThresholdIntermediate
    ensures b == Intermediate <==> ThresholdIntermediate <= depth < ThresholdDeep
    ensures b == Deep <==> ThresholdDeep <= depth
  {
    if depth < ThresholdIntermediate then Shallow
    else if depth < ThresholdDeep then Intermediate
    else Deep
  }

  function BucketRank(b: DepthBucket): nat {
    match b
    case Shallow => 0
    case Intermediate => 1
    case Deep => 2
  }

  /** A deeper quake never gets a shallower colour. */
  lemma ColorBucketMonotone(d1: real, d2: real)
    requires d1 <= d2
    ensures BucketRank(ColorBucket(d1)) <= BucketRank(ColorBucket(d2))
  {
  }

  // ---------------------------------------------------------------------
  // threatCircle

  /**
   * threatCircle(): 20 miles times 1.8 to the power 2m - 5, converted to
   * kilometres. `pow18(e)` stands for Math.pow(1.8, e), which the model
   * leaves opaque.
   */
  function ThreatCircle(q: Quake, pow18: real -> real): real {
    20.0 * pow18(2.0 * q.magnitude - 5.0) * KmPerMile
  }

  /** The threat circle is a function of the magnitude alone. */
  lemma ThreatCircleDependsOnMagnitude(q1: Quake, q2: Quake, pow18: real -> real)
    requires q1.magnitude == q2.magnitude
    ensures ThreatCircle(q1, pow18) == ThreatCircle(q2, pow18)
  {
  }

  /** With an increasing power function, a stronger quake threatens a
      strictly larger circle. */
  lemma ThreatCircleIncreasing(q1: Quake, q2: Quake, pow18: real -> real)
    requires forall x: real, y: real :: x < y ==> pow18(x) < pow18(y)
    requires q1.magnitude < q2.magnitude
    ensures ThreatCircle(q1, pow18) < ThreatCircle(q2, pow18)
  {
    assert pow18(2.0 * q1.magnitude - 5.0) < pow18(2.0 * q2.magnitude - 5.0);
  }
}
