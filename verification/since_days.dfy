/**
  The day count inside `calculate_since_date`: a git time range such as
  `"2.weeks"` becomes the number of days to go back. The subtraction from the
  current date and its formatting are not part of this model.
 */
module SinceDays {
  import opened Wrappers
  import opened Text
  import opened Numbers

  /** The fallback used for every range that cannot be read: one week. */
  const DefaultDays: int := 7

  /** The unit words the code knows, singular and plural. */
  const UnitWords: set<string> := {"day", "days", "week", "weeks", "month", "months", "year", "years"}

  /** Days per unit for the unit words the code knows, already lower-cased. */
  function UnitDays(unit: string): (perUnit: Option<int>)
    ensures perUnit.Some? <==> unit in UnitWords
    ensures perUnit.Some? ==> perUnit.value in {1, 7, 30, 365}
  {
    if unit == "week" || unit == "weeks" then Some(7)
    else if unit == "month" || unit == "months" then Some(30)
    else if unit == "year" || unit == "years" then Some(365)
    else if unit == "day" || unit == "days" then Some(1)
    else None
  }

  /** A unit word and its plural with `s` count the same number of days. */
  lemma PluralAgrees(unit: string)
    requires unit in {"day", "week", "month", "year"}
    ensures UnitDays(unit + "s") == UnitDays(unit) && UnitDays(unit).Some?
  {
    if unit == "day" {
      assert unit + "s" == "days";
    } else if unit == "week" {
      assert unit + "s" == "weeks";
    } else if unit == "month" {
      assert unit + "s" == "months";
    } else {
      assert unit + "s" == "years";
    }
  }

  /**
    The `days` value of `calculate_since_date(since)`: `N.unit` gives N times the
    unit's days, an unknown unit gives 7 (not 7N), and a range that does not
    split into exactly two parts on `.`, or whose first part is not an integer,
    gives 7.
   */
  function Days(since: string): (days: int)
    ensures multiset(since)['.'] != 1 ==> days == DefaultDays
  {
    var parts := Split(since, '.');
    SplitCount(since, '.');
    if |parts| != 2 then DefaultDays
    else
      match ParseInt(parts[0])
      case None => DefaultDays
      case Some(n) =>
        match UnitDays(ToLower(parts[1]))
        case Some(perUnit) => n * perUnit
        case None => DefaultDays
  }

  /**
    A range written as a count, a dot and a unit, where the count is any text
    `int()` reads as `n` (`2`, `02`, `+2`, ` 2`), is `n` units, or the
    fallback week when the unit is unknown.
   */
  lemma DaysOfRange(count: string, n: int, unit: string)
    requires '.' !in count && '.' !in unit
    requires ParseInt(count) == Some(n)
    ensures UnitDays(ToLower(unit)).Some? ==> Days(count + "." + unit) == n * UnitDays(ToLower(unit)).value
    ensures UnitDays(ToLower(unit)).None? ==> Days(count + "." + unit) == DefaultDays
  {
    TwoParts(count, unit);
  }

  /** A range with one dot splits into the text before it and the text after it. */
  lemma TwoParts(count: string, unit: string)
    requires '.' !in count && '.' !in unit
    ensures Split(count + "." + unit, '.') == [count, unit]
  {
    assert count + "." + unit == Join([count, unit], '.');
    SplitJoin([count, unit], '.');
  }

  /** A first part that is not an integer gives the fallback week. */
  lemma DaysOfNonInteger(count: string, unit: string)
    requires '.' !in count && '.' !in unit
    requires ParseInt(count).None?
    ensures Days(count + "." + unit) == DefaultDays
  {
    TwoParts(count, unit);
  }

  /**
    A count of more than `MaxDigits` digits is refused by `int()`, so the range
    falls back to a week whatever its unit.
   */
  lemma DaysOfOverlongCount(count: string, unit: string)
    requires '.' !in count && '.' !in unit
    requires AllDigits(count) && |count| > MaxDigits
    ensures Days(count + "." + unit) == DefaultDays
  {
    DaysOfNonInteger(count, unit);
  }

  /**
    A count led by an information separator is refused by `int()`, although
    `str.strip()` would remove the separator: `\x1c2.weeks` is a week.
   */
  lemma InfoSeparatorCount()
    ensures Days("\U{1C}2.weeks") == DefaultDays
  {
    var count := "\U{1C}2";
    assert IsInfoSeparator(count[0]);
    assert '.' !in count;
    assert "\U{1C}2.weeks" == count + "." + "weeks";
    DaysOfNonInteger(count, "weeks");
  }

  /** Unit words are matched after lower-casing: `N.Weeks` is N weeks. */
  lemma CapitalisedUnit(n: int)
    requires WithinDigitLimit(n)
    ensures Days(IntToString(n) + ".Weeks") == 7 * n
  {
    var lower := ToLower("Weeks");
    assert lower[0] == 'w';
    assert lower == "weeks";
    assert IntToString(n) + ".Weeks" == IntToString(n) + "." + "Weeks";
    ParseIntToString(n);
    DaysOfRange(IntToString(n), n, "Weeks");
  }

  /** A zero-padded count is read as its value: `02.weeks` is 14 days. */
  lemma ZeroPaddedCount()
    ensures Days("02.weeks") == 14
  {
    assert AllDigits("02");
    assert DigitsValue("02") == 2 by {
      assert "02"[..1] == "0";
      assert "0"[..0] == "";
    }
    assert "02.weeks" == "02" + "." + "weeks";
    var lower := ToLower("weeks");
    assert lower == "weeks";
    DaysOfRange("02", 2, "weeks");
  }
}
