/**
 * The side-by-side comparison table (components/CompareModal.tsx): nine fixed rows,
 * each showing one field of the first and of the second university.
 */
module CompareModal {
  import opened Wrappers
  import Api

  /**
   * What a table cell displays: a string, a JavaScript number (rendered by React with
   * the language's own number-to-string conversion), or a non-zero amount rendered by
   * the `Intl.NumberFormat` USD formatter.
   */
  datatype Cell = Text(text: string) | Number(n: real) | Usd(amount: real)

  /** The nine rows of the table. */
  datatype Field =
    | UniversityName | Country | Location | TuitionFee | WorldRanking
    | EstablishedYear | MinIelts | Scholarships | PopularCourses

  /** The rows in display order. */
  const Fields: seq<Field> :=
    [UniversityName, Country, Location, TuitionFee, WorldRanking,
     EstablishedYear, MinIelts, Scholarships, PopularCourses]

  function Label(f: Field): string
  {
    match f
    case UniversityName => "University Name"
    case Country => "Country"
    case Location => "Location"
    case TuitionFee => "Tuition Fee"
    case WorldRanking => "World Ranking"
    case EstablishedYear => "Established Year"
    case MinIelts => "Min IELTS"
    case Scholarships => "Scholarships"
    case PopularCourses => "Popular Courses"
  }

  /** The labels are the React keys of the rows, so no two rows share one. */
  lemma LabelsDistinct()
    ensures |Fields| == 9
    ensures forall i, j | 0 <= i < j < |Fields| :: Label(Fields[i]) != Label(Fields[j])
  {
  }

  /** `formatCurrency`: a zero fee reads "Free"; any other amount is a formatted USD amount. */
  function FormatCurrency(amount: real): (c: Cell)
    ensures c == Text("Free") <==> amount == 0.0
    ensures amount != 0.0 ==> c == Usd(amount)
  {
    if amount == 0.0 then Text("Free") else Usd(amount)
  }

  // ---------------------------------------------------------------------------
  // Decimal rendering of an integer (for the `#${u.ranking}` template)

  function DigitChar(d: int): (c: char)
    requires 0 <= d < 10
    ensures '0' <= c <= '9' && c as int - '0' as int == d
  {
    ('0' as int + d) as char
  }

  predicate IsDigits(s: string)
  {
    forall i | 0 <= i < |s| :: '0' <= s[i] <= '9'
  }

  /** The decimal digits of a natural number, most significant first, without leading zeros. */
  function Digits(n: nat): (s: string)
    ensures |s| >= 1 && IsDigits(s)
    ensures n > 0 ==> s[0] != '0'
  {
    if n < 10 then [DigitChar(n)] else Digits(n / 10) + [DigitChar(n % 10)]
  }

  /** The number a digit string denotes. */
  function DigitsValue(s: string): nat
    requires IsDigits(s)
  {
    if s == [] then 0 else DigitsValue(s[..|s| - 1]) * 10 + (s[|s| - 1] as int - '0' as int)
  }

  /** Reading the digits back yields the number. */
  lemma {:induction false} DigitsRoundTrip(n: nat)
    ensures DigitsValue(Digits(n)) == n
  {
    if n >= 10 {
      var s := Digits(n);
      assert s[..|s| - 1] == Digits(n / 10);
      DigitsRoundTrip(n / 10);
    }
  }

  /** A JavaScript integer in a template literal: an optional minus sign and its digits. */
  function DecimalString(n: int): string
  {
    if n < 0 then "-" + Digits(-n) else Digits(n)
  }

  // ---------------------------------------------------------------------------
  // The cells

  /** `join(', ')`. */
  function JoinComma(xs: seq<string>): (r: string)
    ensures xs != [] ==> |r| == TotalLength(xs) + 2 * (|xs| - 1)
    ensures xs != [] ==> r[..|xs[0]|] == xs[0]
  {
    if xs == [] then ""
    else if |xs| == 1 then xs[0]
    else xs[0] + ", " + JoinComma(xs[1..])
  }

  /** Appending a course appends ", " and that course: the separator and the order of every course. */
  lemma {:induction false} JoinCommaSnoc(xs: seq<string>, x: string)
    requires xs != []
    ensures JoinComma(xs + [x]) == JoinComma(xs) + ", " + x
  {
    if |xs| == 1 {
      assert (xs + [x])[1..] == [x];
    } else {
      assert (xs + [x])[1..] == xs[1..] + [x];
      JoinCommaSnoc(xs[1..], x);
    }
  }

  function TotalLength(xs: seq<string>): nat
  {
    if xs == [] then 0 else |xs[0]| + TotalLength(xs[1..])
  }

  /** The `getValue` of each row of CompareModal.tsx:33-52. */
  function GetValue(f: Field, u: Api.University): (c: Cell)
    ensures f in {UniversityName, Country, Location} ==>
      c == Text(match f case UniversityName => u.name case Country => u.country case _ => u.location)
    ensures f == EstablishedYear ==> c == Number(u.establishedYear as real)
    ensures c.Usd? <==> f == TuitionFee && u.tuitionFee != 0.0
    ensures c.Usd? ==> c.amount == u.tuitionFee
    ensures c.Number? ==> f == EstablishedYear || f == MinIelts
  {
    match f
    case UniversityName => Text(u.name)
    case Country => Text(u.country)
    case Location => Text(u.location)
    case TuitionFee => FormatCurrency(u.tuitionFee)
    case WorldRanking => Text("#" + DecimalString(u.ranking))
    case EstablishedYear => Number(u.establishedYear as real)
    case MinIelts => if u.minIeltsScore.Some? then Number(u.minIeltsScore.value) else Text("N/A")
    case Scholarships => if u.scholarshipsAvailable == Some(true) then Text("Yes") else Text("No")
    case PopularCourses =>
      if u.courses.Some? && |u.courses.value| > 0
      then Text(JoinComma(u.courses.value[..Min(4, |u.courses.value|)]))
      else Text("N/A")
  }

  /** The tuition cell reads "Free" exactly when the fee is zero. */
  lemma TuitionCell(u: Api.University)
    ensures GetValue(TuitionFee, u) == Text("Free") <==> u.tuitionFee == 0.0
  {
  }

  /** The ranking cell is `#` followed by digits that read back as the ranking. */
  lemma RankingCell(u: Api.University)
    requires u.ranking >= 0
    ensures var c := GetValue(WorldRanking, u);
      c.Text? && |c.text| >= 2 && c.text[0] == '#' && IsDigits(c.text[1..])
      && DigitsValue(c.text[1..]) == u.ranking
  {
    var c := GetValue(WorldRanking, u);
    assert c.text[1..] == Digits(u.ranking);
    DigitsRoundTrip(u.ranking);
  }

  /** Min IELTS shows the score when there is one (zero included), and "N/A" otherwise. */
  lemma IeltsCell(u: Api.University)
    ensures u.minIeltsScore.Some? ==> GetValue(MinIelts, u) == Number(u.minIeltsScore.value)
    ensures u.minIeltsScore.None? <==> GetValue(MinIelts, u) == Text("N/A")
  {
  }

  /** Scholarships reads "Yes" only for an explicit `true`, and "No" otherwise. */
  lemma ScholarshipsCell(u: Api.University)
    ensures GetValue(Scholarships, u) == Text("Yes") <==> u.scholarshipsAvailable == Some(true)
    ensures GetValue(Scholarships, u) == Text("Yes") || GetValue(Scholarships, u) == Text("No")
  {
  }

  /**
   * Courses shows "N/A" for an absent or empty list, and otherwise the first (at most
   * four) courses separated by ", ", starting with the first course.
   */
  lemma {:induction false} CoursesCell(u: Api.University)
    ensures u.courses.None? || u.courses.value == [] ==> GetValue(PopularCourses, u) == Text("N/A")
    ensures u.courses.Some? && u.courses.value != [] ==>
      var shown := u.courses.value[..Min(4, |u.courses.value|)];
      && 1 <= |shown| <= 4
      && GetValue(PopularCourses, u) == Text(JoinComma(shown))
      && |GetValue(PopularCourses, u).text| == TotalLength(shown) + 2 * (|shown| - 1)
      && GetValue(PopularCourses, u).text[..|u.courses.value[0]|] == u.courses.value[0]
  {
    if u.courses.Some? && u.courses.value != [] {
      var shown := u.courses.value[..Min(4, |u.courses.value|)];
      assert shown[0] == u.courses.value[0];
    }
  }

  // ---------------------------------------------------------------------------
  // The table

  datatype Row = Row(heading: string, first: Cell, second: Cell)

  /**
   * What the component renders: nothing for an empty list; a table for two or more;
   * with exactly one university `getValue(b)` reads a property of `undefined`, which
   * throws while rendering.
   */
  datatype View = Hidden | Table(rows: seq<Row>) | RenderError

  /** `fields.map(...)`: one row per field, in field order. */
  function RowsFor(fs: seq<Field>, a: Api.University, b: Api.University): (rows: seq<Row>)
    ensures |rows| == |fs|
    ensures forall i | 0 <= i < |fs| :: rows[i] == Row(Label(fs[i]), GetValue(fs[i], a), GetValue(fs[i], b))
  {
    if fs == [] then [] else [Row(Label(fs[0]), GetValue(fs[0], a), GetValue(fs[0], b))] + RowsFor(fs[1..], a, b)
  }

  /** The modal's render (CompareModal.tsx:30-52 and 90-98). */
  function Render(us: seq<Api.University>): (v: View)
    ensures v == Hidden <==> us == []
    ensures v == RenderError <==> |us| == 1
    ensures |us| >= 2 ==>
      && v.Table? && |v.rows| == 9
      && forall i | 0 <= i < 9 ::
           v.rows[i] == Row(Label(Fields[i]), GetValue(Fields[i], us[0]), GetValue(Fields[i], us[1]))
  {
    if |us| == 0 then Hidden
    else if |us| == 1 then RenderError
    else Table(RowsFor(Fields, us[0], us[1]))
  }
}
