/**
  The census column "age of a female aged 16 to 26": for one individual on a
  census form it shows her age in whole years when it falls in that bracket.
  The age itself comes from the date library (Date::getAge with rounding mode
  0), which is not part of this model: it is passed in as `getAge`.
 */
module Census {
  import opened Wrappers

  /** The values Individual::getSex can return. */
  datatype Sex = M | F | U

  /** A fuzzy date: the range of Julian days it may stand for. */
  datatype Date = Date(minJulianDay: int, maxJulianDay: int)

  /** The facts of an individual that census columns read. */
  datatype Individual = Individual(sex: Sex, estimatedBirthDate: Date)

  /** A census column: the census date it was built for, and its labels. */
  datatype CensusColumn = CensusColumn(censusDate: Date, abbr: string, title: string)

  /** The character of a decimal digit. */
  function DigitChar(d: nat): char
    requires d < 10
  {
    (48 + d) as char
  }

  /** The value of a digit character. */
  function DigitValue(c: char): int
  {
    c as int - 48
  }

  /** A string is a decimal numeral: digits only, with no leading zero. */
  predicate IsDecimalNumeral(s: string)
  {
    |s| > 0 && (forall k :: 0 <= k < |s| ==> '0' <= s[k] <= '9') && (s[0] == '0' ==> |s| == 1)
  }

  /** The number a string of digits spells. */
  function DecimalValue(s: string): int
  {
    if s == [] then 0 else DecimalValue(s[..|s| - 1]) * 10 + DigitValue(s[|s| - 1])
  }

  /** PHP's `(string) $n` for a non-negative integer. */
  function DecimalString(n: nat): (r: string)
    ensures IsDecimalNumeral(r)
    ensures DecimalValue(r) == n
    ensures n >= 10 ==> |r| >= 2
    ensures n < 100 ==> |r| <= 2
  {
    if n < 10 then
      assert [DigitChar(n)][..0] == [];
      [DigitChar(n)]
    else
      var prefix := DecimalString(n / 10);
      var r := prefix + [DigitChar(n % 10)];
      assert r[..|r| - 1] == prefix;
      r
  }

  /**
    The value of the column for `individual`. Only sex 'M' gives the blank
    string; every other sex is looked at by age, and an age outside 16..25
    gives no value at all (the PHP method falls off its end and returns null).
    The head of household is not consulted.
   */
  function AgeFemale16To26Years(column: CensusColumn, individual: Individual, head: Option<Individual>,
                                getAge: (Date, Date) -> int): (r: Option<string>)
    ensures r == Some("") <==> individual.sex == M
    ensures r.Some? && r.value != "" ==>
              && IsDecimalNumeral(r.value)
              && DecimalValue(r.value) == getAge(individual.estimatedBirthDate, column.censusDate)
              && 16 <= DecimalValue(r.value) <= 25
  {
    if individual.sex == M then Some("")
    else
      var years := getAge(individual.estimatedBirthDate, column.censusDate);
      if years > 15 && years < 26 then Some(DecimalString(years)) else None
  }

  /**
    The three outcomes, each characterised in both directions: a men-only blank
    string, the age itself inside the bracket, and no value outside it.
   */
  lemma AgeFemale16To26YearsOutcomes(column: CensusColumn, individual: Individual, head: Option<Individual>,
                                     getAge: (Date, Date) -> int)
    ensures var r := AgeFemale16To26Years(column, individual, head, getAge);
            var years := getAge(individual.estimatedBirthDate, column.censusDate);
            && (r == Some("") <==> individual.sex == M)
            && (r.None? <==> individual.sex != M && (years <= 15 || years >= 26))
            && (r.Some? && r.value != "" <==> individual.sex != M && 15 < years < 26)
            && (r.Some? && r.value != "" ==> DecimalValue(r.value) == years)
  {
  }

  /**
    Whatever the age, a non-blank value is a two-digit decimal numeral of a
    number from 16 to 25, and is that number's canonical string.
   */
  lemma AgeFemale16To26YearsRange(column: CensusColumn, individual: Individual, head: Option<Individual>,
                                  getAge: (Date, Date) -> int)
    ensures var r := AgeFemale16To26Years(column, individual, head, getAge);
            r.Some? && r.value != "" ==>
              && IsDecimalNumeral(r.value)
              && |r.value| == 2
              && 16 <= DecimalValue(r.value) <= 25
              && r.value == DecimalString(DecimalValue(r.value))
  {
  }

  /** The boundary ages: 15 and 26 give no value, 16 and 25 give "16" and "25". */
  lemma AgeFemale16To26YearsBoundaries(column: CensusColumn, individual: Individual, head: Option<Individual>,
                                       getAge: (Date, Date) -> int)
    requires individual.sex != M
    ensures var r := AgeFemale16To26Years(column, individual, head, getAge);
            var years := getAge(individual.estimatedBirthDate, column.censusDate);
            && (years == 15 ==> r == None)
            && (years == 16 ==> r == Some("16"))
            && (years == 25 ==> r == Some("25"))
            && (years == 26 ==> r == None)
  {
    assert DecimalString(1) == "1" && DecimalString(2) == "2";
    assert DecimalString(16) == DecimalString(1) + [DigitChar(6)] == "16";
    assert DecimalString(25) == DecimalString(2) + [DigitChar(5)] == "25";
  }

  /** Sex 'U' is treated exactly as 'F': only 'M' is short-circuited. */
  lemma AgeFemale16To26YearsUnknownSex(column: CensusColumn, individual: Individual, head: Option<Individual>,
                                       getAge: (Date, Date) -> int)
    requires individual.sex == U
    ensures AgeFemale16To26Years(column, individual, head, getAge)
         == AgeFemale16To26Years(column, individual.(sex := F), head, getAge)
  {
  }

  /** The head of household has no influence on the value. */
  lemma AgeFemale16To26YearsIgnoresHead(column: CensusColumn, individual: Individual, head1: Option<Individual>,
                                        head2: Option<Individual>, getAge: (Date, Date) -> int)
    ensures AgeFemale16To26Years(column, individual, head1, getAge)
         == AgeFemale16To26Years(column, individual, head2, getAge)
  {
  }
}
