/** The helper functions of src/utils.py: salary display, salary validation, lookup by name. */
module Utils {
  import opened Wrappers
  import opened Json
  import Text

  /** The fixed text shown for a missing or invalid salary ("salary not specified"). */
  const NOT_SPECIFIED: string := "Зарплата не указана"
  /** Every formatted salary starts with this ("Salary: "). */
  const SALARY_PREFIX: string := "Зарплата: "
  /** The currency assumed when the salary object has no `currency` key. */
  const DEFAULT_CURRENCY: string := "руб."

  /**
   * The salary object of an API listing. A bound is None when its key is
   * absent or null; the currency is None when its key is absent.
   */
  datatype SalaryData = SalaryData(from: Option<int>, to: Option<int>, currency: Option<string>)

  /** Python truthiness of a bound: absent, null and 0 count as false. */
  function Truthy(b: Option<int>): (r: bool)
    ensures r <==> b != None && b != Some(0)
  {
    b.Some? && b.value != 0
  }

  /** `salary_data.get("currency", 'руб.')` */
  function Currency(d: SalaryData): (r: string)
    ensures d.currency.None? ==> r == DEFAULT_CURRENCY
    ensures d.currency.Some? ==> r == d.currency.value
  {
    d.currency.GetOr(DEFAULT_CURRENCY)
  }

  /** The display text of a salary with only a lower bound: "Зарплата: от X CUR". */
  function FromText(from: int, cur: string): string {
    SALARY_PREFIX + ("от " + (Text.IntToDecimal(from) + (" " + cur)))
  }

  /** The display text of a salary with only an upper bound: "Зарплата: до Y CUR". */
  function ToText(to: int, cur: string): string {
    SALARY_PREFIX + ("до " + (Text.IntToDecimal(to) + (" " + cur)))
  }

  /** The display text of a salary with both bounds: "Зарплата: от X до Y CUR". */
  function RangeText(from: int, to: int, cur: string): string {
    SALARY_PREFIX + ("от " + (Text.IntToDecimal(from) + (" до " + (Text.IntToDecimal(to) + (" " + cur)))))
  }

  lemma SentinelUnprefixed()
    ensures !Text.StartsWith(NOT_SPECIFIED, SALARY_PREFIX)
  {
    assert NOT_SPECIFIED[8] == ' ' && SALARY_PREFIX[8] == ':';
  }

  /** `format_salary(salary_data)`; None is Python's None. */
  function FormatSalary(data: Option<SalaryData>): (r: string)
    ensures data.None? ==> r == NOT_SPECIFIED
    ensures r == NOT_SPECIFIED || Text.StartsWith(r, SALARY_PREFIX)
    ensures r == NOT_SPECIFIED <==> data.None? || (!Truthy(data.value.from) && !Truthy(data.value.to))
    ensures data.Some? && Truthy(data.value.from) && Truthy(data.value.to) ==>
              r == RangeText(data.value.from.value, data.value.to.value, Currency(data.value))
    ensures data.Some? && Truthy(data.value.from) && !Truthy(data.value.to) ==>
              r == FromText(data.value.from.value, Currency(data.value))
    ensures data.Some? && !Truthy(data.value.from) && Truthy(data.value.to) ==>
              r == ToText(data.value.to.value, Currency(data.value))
  {
    match data
    case None => NOT_SPECIFIED
    case Some(d) =>
      SentinelUnprefixed();
      if Truthy(d.from) && Truthy(d.to) then
        RangeText(d.from.value, d.to.value, Currency(d))
      else if Truthy(d.from) then
        FromText(d.from.value, Currency(d))
      else if Truthy(d.to) then
        ToText(d.to.value, Currency(d))
      else
        NOT_SPECIFIED
  }

  lemma Decimal50000And70000()
    ensures Text.NatToDecimal(50000) == "50000" && Text.NatToDecimal(70000) == "70000"
  {
    assert Text.NatToDecimal(5) == "5";
    assert Text.NatToDecimal(50) == "50";
    assert Text.NatToDecimal(500) == "500";
    assert Text.NatToDecimal(5000) == "5000";
    assert Text.NatToDecimal(7) == "7";
    assert Text.NatToDecimal(70) == "70";
    assert Text.NatToDecimal(700) == "700";
    assert Text.NatToDecimal(7000) == "7000";
  }

  /** The example of tests/test_utils.py: from 50000 to 70000 roubles. */
  lemma FormatSalaryExample()
    ensures FormatSalary(Some(SalaryData(Some(50000), Some(70000), Some("руб.")))) == "Зарплата: от 50000 до 70000 руб."
  {
    Decimal50000And70000();
    assert FormatSalary(Some(SalaryData(Some(50000), Some(70000), Some("руб.")))) == RangeText(50000, 70000, "руб.");
    assert RangeText(50000, 70000, "руб.") == SALARY_PREFIX + ("от " + ("50000" + (" до " + ("70000" + (" " + "руб.")))));
  }

  /** Only a lower bound, with no currency key: the currency defaults to roubles. */
  lemma FormatSalaryFromOnlyExample()
    ensures FormatSalary(Some(SalaryData(Some(50000), None, None))) == "Зарплата: от 50000 руб."
  {
    Decimal50000And70000();
  }

  /** A zero lower bound counts as missing. */
  lemma FormatSalaryToOnlyExample()
    ensures FormatSalary(Some(SalaryData(Some(0), Some(70000), None))) == "Зарплата: до 70000 руб."
  {
    Decimal50000And70000();
  }

  predicate NoSpace(s: string) {
    forall i :: 0 <= i < |s| ==> s[i] != ' '
  }

  lemma DecimalNoSpace(n: int)
    ensures NoSpace(Text.IntToDecimal(n))
  {
    var s := Text.IntToDecimal(n);
    if n < 0 {
      var t := Text.NatToDecimal(-n);
      assert s == "-" + t;
      forall i | 0 <= i < |s| ensures s[i] != ' ' {
        if i > 0 { assert s[i] == t[i - 1]; }
      }
    }
  }

  lemma SpaceAfterWord(x: string, r: string)
    ensures |x| < |x + (" " + r)| && (x + (" " + r))[|x|] == ' '
  {
  }

  /** A space-free word followed by a space can be split off in only one way. */
  lemma SplitWord(x: string, r: string, y: string, q: string)
    requires NoSpace(x) && NoSpace(y)
    requires x + (" " + r) == y + (" " + q)
    ensures x == y && r == q
  {
    var s := x + (" " + r);
    if |x| < |y| {
      SpaceAfterWord(x, r);
      assert false;
    } else if |y| < |x| {
      SpaceAfterWord(y, q);
      assert false;
    } else {
      assert x == s[..|x|] == y;
      assert " " + r == s[|x|..] == " " + q;
      assert r == (" " + r)[1..] == (" " + q)[1..] == q;
    }
  }

  /** With both bounds set, the display text determines both bounds and the currency. */
  lemma RangeTextInjective(f1: int, t1: int, c1: string, f2: int, t2: int, c2: string)
    requires RangeText(f1, t1, c1) == RangeText(f2, t2, c2)
    ensures f1 == f2 && t1 == t2 && c1 == c2
  {
    var p := SALARY_PREFIX + "от ";
    var x1, y1 := Text.IntToDecimal(f1), Text.IntToDecimal(t1);
    var x2, y2 := Text.IntToDecimal(f2), Text.IntToDecimal(t2);
    var r1 := "до " + (y1 + (" " + c1));
    var r2 := "до " + (y2 + (" " + c2));
    assert RangeText(f1, t1, c1) == p + (x1 + (" " + r1));
    assert RangeText(f2, t2, c2) == p + (x2 + (" " + r2));
    assert x1 + (" " + r1) == x2 + (" " + r2) by {
      assert x1 + (" " + r1) == RangeText(f1, t1, c1)[|p|..];
      assert x2 + (" " + r2) == RangeText(f2, t2, c2)[|p|..];
    }
    DecimalNoSpace(f1);
    DecimalNoSpace(f2);
    SplitWord(x1, r1, x2, r2);
    assert y1 + (" " + c1) == r1[3..] == r2[3..] == y2 + (" " + c2);
    DecimalNoSpace(t1);
    DecimalNoSpace(t2);
    SplitWord(y1, c1, y2, c2);
    Text.IntToDecimalInjective(f1, f2);
    Text.IntToDecimalInjective(t1, t2);
  }

  /** A one-bound display text determines its bound and its currency. */
  lemma OneBoundTextInjective(f1: int, c1: string, f2: int, c2: string)
    ensures FromText(f1, c1) == FromText(f2, c2) ==> f1 == f2 && c1 == c2
    ensures ToText(f1, c1) == ToText(f2, c2) ==> f1 == f2 && c1 == c2
  {
    var x1, x2 := Text.IntToDecimal(f1), Text.IntToDecimal(f2);
    DecimalNoSpace(f1);
    DecimalNoSpace(f2);
    var n := |SALARY_PREFIX + "от "|;
    if FromText(f1, c1) == FromText(f2, c2) {
      assert FromText(f1, c1) == (SALARY_PREFIX + "от ") + (x1 + (" " + c1));
      assert FromText(f2, c2) == (SALARY_PREFIX + "от ") + (x2 + (" " + c2));
      assert x1 + (" " + c1) == FromText(f1, c1)[n..] == FromText(f2, c2)[n..] == x2 + (" " + c2);
      SplitWord(x1, c1, x2, c2);
      Text.IntToDecimalInjective(f1, f2);
    }
    if ToText(f1, c1) == ToText(f2, c2) {
      assert ToText(f1, c1) == (SALARY_PREFIX + "до ") + (x1 + (" " + c1));
      assert ToText(f2, c2) == (SALARY_PREFIX + "до ") + (x2 + (" " + c2));
      assert x1 + (" " + c1) == ToText(f1, c1)[n..] == ToText(f2, c2)[n..] == x2 + (" " + c2);
      SplitWord(x1, c1, x2, c2);
      Text.IntToDecimalInjective(f1, f2);
    }
  }

  /**
   * An upper bound alone is never shown like a lower bound: the word after the
   * prefix is "до" ("up to") in one and "от" ("from") in the others.
   */
  lemma ToTextDiffers(f: int, t: int, c: string, t2: int, c2: string)
    ensures ToText(t2, c2) != FromText(f, c)
    ensures ToText(t2, c2) != RangeText(f, t, c)
    ensures ToText(t2, c2) != NOT_SPECIFIED
  {
    var k := |SALARY_PREFIX|;
    assert ToText(t2, c2)[k] == 'д';
    assert FromText(f, c)[k] == 'о';
    assert RangeText(f, t, c)[k] == 'о';
    SentinelUnprefixed();
  }

  predicate IsAmount(v: Value) {
    v.VInt? && v.n >= 0
  }

  /** `valid_salary(salary)`: a number >= 0 is kept, anything else becomes the sentinel. */
  function ValidSalary(v: Value): (r: Value)
    ensures IsAmount(v) ==> r == v
    ensures !IsAmount(v) ==> r == VStr(NOT_SPECIFIED)
  {
    if IsAmount(v) then v else VStr(NOT_SPECIFIED)
  }

  /** Validating a validated salary changes nothing. */
  lemma ValidSalaryIdempotent(v: Value)
    ensures ValidSalary(ValidSalary(v)) == ValidSalary(v)
    ensures IsAmount(ValidSalary(v)) || ValidSalary(v) == VStr(NOT_SPECIFIED)
  {
  }

  /** `vacancy_exists(vacancies, vacancy_name)`: some record's `name` is the given one. */
  function VacancyExists(vs: seq<Record>, name: string): (b: bool)
    ensures b <==> exists i :: 0 <= i < |vs| && HasEntry(vs[i], "name", VStr(name))
  {
    if vs == [] then false
    else HasEntry(vs[0], "name", VStr(name)) || VacancyExists(vs[1..], name)
  }
}
