/** The `Vacancy` listing of src/subclasses.py: validation, `to_dict`, equality and ordering. */
module Vacancies {
  import opened Wrappers
  import opened Json
  import Text
  import Utils

  /** "The vacancy name must not be an empty string" */
  const NAME_ERROR: string := "Название вакансии не должно быть пустой строкой"
  /** "The URL must start with \"http\"." */
  const URL_ERROR: string := "URL должен начинаться с \"http\"."
  const URL_SCHEME: string := "http"

  /** A constructed listing. It is never changed after construction. */
  datatype Vacancy = Vacancy(name: string, url: string, description: Value, salary: Value)

  /** `_validate_name`: a string with at least one non-whitespace character, kept as it is. */
  function ValidateName(v: Value): (r: Result<string, PyError>)
    ensures r.Ok? <==> v.VStr? && !Text.AllSpace(v.s)
    ensures r.Ok? ==> r.value == v.s
    ensures r.Err? ==> r.error == ValueError(NAME_ERROR)
  {
    match v
    case VStr(s) =>
      Text.StripEmpty(s);
      if Text.Strip(s) == [] then Err(ValueError(NAME_ERROR)) else Ok(s)
    case _ => Err(ValueError(NAME_ERROR))
  }

  /** `_validate_url`: a string whose first four characters are "http", kept as it is. */
  function ValidateUrl(v: Value): (r: Result<string, PyError>)
    ensures r.Ok? <==> v.VStr? && |v.s| >= 4 && v.s[..4] == "http"
    ensures r.Ok? ==> r.value == v.s
    ensures r.Err? ==> r.error == ValueError(URL_ERROR)
  {
    if v.VStr? && Text.StartsWith(v.s, URL_SCHEME) then Ok(v.s) else Err(ValueError(URL_ERROR))
  }

  /** `_validate_salary`: the same rule as `valid_salary` of src/utils.py. */
  function ValidateSalary(v: Value): (r: Value)
    ensures Utils.IsAmount(v) ==> r == v
    ensures !Utils.IsAmount(v) ==> r == VStr(Utils.NOT_SPECIFIED)
  {
    Utils.ValidSalary(v)
  }

  /** What every constructed listing satisfies. */
  predicate Valid(v: Vacancy) {
    !Text.AllSpace(v.name) && Text.StartsWith(v.url, URL_SCHEME) &&
    (Utils.IsAmount(v.salary) || v.salary == VStr(Utils.NOT_SPECIFIED))
  }

  /** `Vacancy(_name, _url, _description, _salary)`: the name is checked first, then the url. */
  function New(name: Value, url: Value, description: Value, salary: Value): (r: Result<Vacancy, PyError>)
    ensures r.Ok? <==> name.VStr? && !Text.AllSpace(name.s) && url.VStr? && Text.StartsWith(url.s, "http")
    ensures r.Ok? ==> r.value.name == name.s && r.value.url == url.s &&
                      r.value.description == description && r.value.salary == ValidateSalary(salary)
    ensures r.Ok? ==> Valid(r.value)
    ensures ValidateName(name).Err? ==> r == Err(ValueError(NAME_ERROR))
    ensures ValidateName(name).Ok? && ValidateUrl(url).Err? ==> r == Err(ValueError(URL_ERROR))
  {
    match ValidateName(name)
    case Err(e) => Err(e)
    case Ok(n) =>
      match ValidateUrl(url)
      case Err(e) => Err(e)
      case Ok(u) => Ok(Vacancy(n, u, description, ValidateSalary(salary)))
  }

  /** `to_dict`: exactly the four fields. */
  function ToDict(v: Vacancy): (r: Record)
    ensures r.Keys == {"name", "url", "description", "salary"}
    ensures r["name"] == VStr(v.name) && r["url"] == VStr(v.url)
    ensures r["description"] == v.description && r["salary"] == v.salary
  {
    map["name" := VStr(v.name), "url" := VStr(v.url), "description" := v.description, "salary" := v.salary]
  }

  /** Rebuilding a listing from a stored mapping by its four keys; a missing key is a KeyError. */
  function FromRecord(r: Record): (res: Result<Vacancy, PyError>)
    ensures res.Ok? <==> "name" in r && "url" in r && "description" in r && "salary" in r &&
                         ValidateName(r["name"]).Ok? && ValidateUrl(r["url"]).Ok?
    ensures !("name" in r && "url" in r && "description" in r && "salary" in r) ==>
              res.Err? && res.error.KeyError? && res.error.key !in r
    ensures res.Ok? ==> r["name"] == VStr(res.value.name) && r["url"] == VStr(res.value.url)
    ensures res.Ok? ==> res.value.description == r["description"]
    ensures res.Ok? ==> res.value.salary == Utils.ValidSalary(r["salary"])
    ensures res.Err? && "name" in r && "url" in r && "description" in r && "salary" in r ==>
              res.error.ValueError?
  {
    if "name" !in r then Err(KeyError("name"))
    else if "url" !in r then Err(KeyError("url"))
    else if "description" !in r then Err(KeyError("description"))
    else if "salary" !in r then Err(KeyError("salary"))
    else New(r["name"], r["url"], r["description"], r["salary"])
  }

  /** A valid listing survives `to_dict` and reconstruction unchanged. */
  lemma FromRecordToDict(v: Vacancy)
    requires Valid(v)
    ensures FromRecord(ToDict(v)) == Ok(v)
  {
    Utils.ValidSalaryIdempotent(v.salary);
  }

  /** The constructor's keyword parameter names. */
  const PARAMETERS: set<string> := {"_name", "_url", "_description", "_salary"}

  /**
   * `Vacancy(**vac)`: Python binds the mapping's keys to the constructor's
   * parameter names, so a key that is not a parameter name, or a parameter
   * with no key, raises a TypeError before any validation runs.
   */
  function KeywordConstruct(r: Record): (res: Result<Vacancy, PyError>)
    ensures r.Keys - PARAMETERS != {} ==> res.Err? && res.error.TypeError?
    ensures r.Keys == PARAMETERS ==> res == New(r["_name"], r["_url"], r["_description"], r["_salary"])
  {
    if r.Keys - PARAMETERS != {} then Err(TypeError("unexpected keyword argument"))
    else if PARAMETERS - r.Keys != {} then Err(TypeError("missing required positional argument"))
    else New(r["_name"], r["_url"], r["_description"], r["_salary"])
  }

  /** No mapping produced by `to_dict` can be turned back into a listing by `Vacancy(**vac)`. */
  lemma KeywordConstructRejectsToDict(v: Vacancy)
    ensures KeywordConstruct(ToDict(v)).Err? && KeywordConstruct(ToDict(v)).error.TypeError?
  {
    assert "name" in ToDict(v).Keys - PARAMETERS;
  }

  /** `__eq__`: same name, url and salary; the description is ignored. Equal listings are not ordered. */
  function Eq(a: Vacancy, b: Vacancy): (r: bool)
    ensures r ==> !Lt(a, b) && !Gt(a, b) && Le(a, b) && Ge(a, b)
  {
    Text.LexLessIrreflexive(a.name);
    a.name == b.name && a.url == b.url && a.salary == b.salary
  }

  /** Equal listings are those whose mappings agree on every key but the description. */
  lemma EqIffSameDictBarDescription(a: Vacancy, b: Vacancy)
    ensures Eq(a, b) <==> ToDict(a) - {"description"} == ToDict(b) - {"description"}
  {
    var da, db := ToDict(a) - {"description"}, ToDict(b) - {"description"};
    if da == db {
      assert da["name"] == db["name"] && da["url"] == db["url"] && da["salary"] == db["salary"];
    }
  }

  /** `__eq__` is an equivalence relation. */
  lemma EqEquivalence(a: Vacancy, b: Vacancy, c: Vacancy)
    ensures Eq(a, a)
    ensures Eq(a, b) ==> Eq(b, a)
    ensures Eq(a, b) && Eq(b, c) ==> Eq(a, c)
  {
  }

  /** `__lt__`: Python's `str` comparison of the names alone; listings with one name are never less. */
  function Lt(a: Vacancy, b: Vacancy): (r: bool)
    ensures r ==> a.name != b.name
  {
    Text.LexLessIrreflexive(a.name);
    Text.LexLess(a.name, b.name)
  }

  /** `__le__`: exactly when the first listing is not greater. */
  function Le(a: Vacancy, b: Vacancy): (r: bool)
    ensures r <==> !Gt(a, b)
  {
    Text.LexLessTotal(a.name, b.name);
    Text.LexLess(a.name, b.name) || a.name == b.name
  }

  /** `__gt__`: exactly when the second listing is less. */
  function Gt(a: Vacancy, b: Vacancy): (r: bool)
    ensures r <==> Lt(b, a)
    ensures r ==> !Lt(a, b)
  {
    Text.LexLessTotal(a.name, b.name);
    Text.LexLess(b.name, a.name)
  }

  /** `__ge__`: exactly when the first listing is not less. */
  function Ge(a: Vacancy, b: Vacancy): (r: bool)
    ensures r <==> !Lt(a, b)
  {
    Text.LexLessTotal(a.name, b.name);
    Text.LexLess(b.name, a.name) || a.name == b.name
  }

  /**
   * The four comparisons order listings totally by name: `a < b` iff `b > a`,
   * `a <= b` iff not `a > b`, and exactly one of `a < b`, same name, `a > b` holds.
   */
  lemma OrderByName(a: Vacancy, b: Vacancy)
    ensures Lt(a, b) <==> Gt(b, a)
    ensures Le(a, b) <==> Ge(b, a)
    ensures Le(a, b) <==> !Gt(a, b)
    ensures Ge(a, b) <==> !Lt(a, b)
    ensures a.name == b.name <==> !Lt(a, b) && !Gt(a, b)
  {
    Text.LexLessTotal(a.name, b.name);
  }

  lemma LtTransitive(a: Vacancy, b: Vacancy, c: Vacancy)
    requires Lt(a, b) && Lt(b, c)
    ensures Lt(a, c)
  {
    Text.LexLessTransitive(a.name, b.name, c.name);
  }

  /** Equal listings are never strictly ordered; listings differing only in url or salary are not either. */
  lemma EqUnordered(a: Vacancy, b: Vacancy)
    requires Eq(a, b) || a.name == b.name
    ensures !Lt(a, b) && !Gt(a, b) && Le(a, b) && Ge(a, b)
  {
    Text.LexLessIrreflexive(a.name);
  }
}
