/**
 * `JsonJob` of src/subclasses.py: listings kept as a JSON array of mappings in
 * one file, read whole and rewritten whole on every change. The file is a field
 * of the object; what a read yields is either the array or "unreadable".
 */
module Storage {
  import opened Wrappers
  import opened Json
  import Utils
  import Vacancies

  /** The file name a store uses when none is given. */
  const DEFAULT_FILENAME: string := "vacancies.json"

  /** What reading the file gives: nothing usable (absent, not JSON, an I/O error) or the stored records. */
  datatype FileContent = Unreadable | Records(items: seq<Record>)

  /** How a store update ended; `Raised` is an exception that reaches the caller. */
  datatype Outcome = Saved | Duplicate | WriteFailed | Raised(error: PyError)

  predicate AllNamed(rs: seq<Record>) {
    forall i :: 0 <= i < |rs| ==> "name" in rs[i]
  }

  /** No two records share a name. */
  predicate UniqueNames(rs: seq<Record>) {
    forall i, j :: 0 <= i < j < |rs| && "name" in rs[i] && "name" in rs[j] ==> rs[i]["name"] != rs[j]["name"]
  }

  /** How many records are called `name`. */
  function CountNamed(rs: seq<Record>, name: string): nat {
    if rs == [] then 0
    else (if HasEntry(rs[0], "name", VStr(name)) then 1 else 0) + CountNamed(rs[1..], name)
  }

  /**
   * `any(v['name'] == name for v in vacancies)`: the scan stops at the first
   * record with that name; a record without a "name" key met before that
   * raises KeyError.
   */
  function NameTaken(rs: seq<Record>, name: string): (r: Result<bool, PyError>)
    ensures r == Ok(false) <==> forall i :: 0 <= i < |rs| ==> "name" in rs[i] && rs[i]["name"] != VStr(name)
    ensures r == Ok(true) <==>
      exists i :: 0 <= i < |rs| && HasEntry(rs[i], "name", VStr(name)) && forall j :: 0 <= j < i ==> "name" in rs[j]
    ensures r.Err? ==> r.error == KeyError("name")
  {
    if rs == [] then Ok(false)
    else if "name" !in rs[0] then Err(KeyError("name"))
    else if rs[0]["name"] == VStr(name) then Ok(true)
    else
      var r := NameTaken(rs[1..], name);
      assert r == Ok(true) ==> exists i :: 0 <= i < |rs| && HasEntry(rs[i], "name", VStr(name)) && forall j :: 0 <= j < i ==> "name" in rs[j] by {
        if r == Ok(true) {
          var i :| 0 <= i < |rs[1..]| && HasEntry(rs[1..][i], "name", VStr(name)) && forall j :: 0 <= j < i ==> "name" in rs[1..][j];
          assert forall j :: 0 <= j < i + 1 ==> "name" in rs[j] by {
            forall j | 0 <= j < i + 1 ensures "name" in rs[j] {
              if j > 0 { assert rs[j] == rs[1..][j - 1]; }
            }
          }
          assert HasEntry(rs[i + 1], "name", VStr(name));
        }
      }
      r
  }

  /** On a store whose records all have names, the duplicate check is `vacancy_exists` of src/utils.py. */
  lemma NameTakenIsVacancyExists(rs: seq<Record>, name: string)
    requires AllNamed(rs)
    ensures NameTaken(rs, name) == Ok(Utils.VacancyExists(rs, name))
  {
  }

  /** `a` occurs in `b` in the same order, possibly with gaps. */
  predicate IsSubsequence(a: seq<Record>, b: seq<Record>) {
    if a == [] then true
    else if b == [] then false
    else if a[0] == b[0] then IsSubsequence(a[1..], b[1..])
    else IsSubsequence(a, b[1..])
  }

  /**
   * `[v for v in vacancies if v['name'] != name]`: the records not called
   * `name`, in their order; any record without a "name" key raises KeyError.
   * The result skips every record called `name` and keeps all others.
   */
  function WithoutName(rs: seq<Record>, name: string): (r: Result<seq<Record>, PyError>)
    ensures r.Ok? <==> AllNamed(rs)
    ensures r.Err? ==> r.error == KeyError("name")
    ensures r.Ok? ==> IsSubsequence(r.value, rs)
    ensures r.Ok? ==> |r.value| == |rs| - CountNamed(rs, name)
    ensures r.Ok? ==> forall i :: 0 <= i < |r.value| ==> "name" in r.value[i] && r.value[i]["name"] != VStr(name)
  {
    if rs == [] then Ok([])
    else if "name" !in rs[0] then Err(KeyError("name"))
    else
      match WithoutName(rs[1..], name)
      case Err(e) =>
        assert !AllNamed(rs) by { assert !AllNamed(rs[1..]); }
        Err(e)
      case Ok(rest) =>
        assert AllNamed(rs) by {
          forall i | 0 <= i < |rs| ensures "name" in rs[i] {
            if i > 0 { assert rs[i] == rs[1..][i - 1]; }
          }
        }
        if rs[0]["name"] != VStr(name) then
          assert ([rs[0]] + rest)[1..] == rest;
          Ok([rs[0]] + rest)
        else
          SubsequenceOfTail(rest, rs);
          Ok(rest)
  }

  /** A subsequence of the tail is a subsequence of the whole. */
  lemma {:induction false} SubsequenceOfTail(a: seq<Record>, b: seq<Record>)
    requires b != [] && IsSubsequence(a, b[1..])
    ensures IsSubsequence(a, b)
    decreases |b|, 0
  {
    if a != [] && a[0] == b[0] {
      SubsequenceDropFirst(a, b[1..]);
    }
  }

  /** Dropping the first element of a subsequence leaves a subsequence. */
  lemma {:induction false} SubsequenceDropFirst(a: seq<Record>, c: seq<Record>)
    requires a != [] && IsSubsequence(a, c)
    ensures IsSubsequence(a[1..], c)
    decreases |c|, 1
  {
    if a[0] != c[0] {
      SubsequenceDropFirst(a, c[1..]);
    }
    SubsequenceOfTail(a[1..], c);
  }

  lemma {:induction false} SubsequenceMembers(a: seq<Record>, b: seq<Record>)
    requires IsSubsequence(a, b)
    ensures forall x :: x in a ==> x in b
  {
    if a != [] && b != [] {
      if a[0] == b[0] {
        SubsequenceMembers(a[1..], b[1..]);
        forall x | x in a ensures x in b {
          if x != a[0] { assert x in a[1..]; }
        }
      } else {
        SubsequenceMembers(a, b[1..]);
      }
    }
  }

  /** Keeping some records, in order, cannot create two records with the same name. */
  lemma {:induction false} SubsequenceKeepsUnique(a: seq<Record>, b: seq<Record>)
    requires IsSubsequence(a, b) && UniqueNames(b)
    ensures UniqueNames(a)
  {
    if a != [] && b != [] {
      if a[0] == b[0] {
        SubsequenceKeepsUnique(a[1..], b[1..]);
        SubsequenceMembers(a[1..], b[1..]);
        forall i, j | 0 <= i < j < |a| && "name" in a[i] && "name" in a[j]
          ensures a[i]["name"] != a[j]["name"]
        {
          if i == 0 {
            assert a[j] == a[1..][j - 1];
            assert a[j] in a[1..];
            assert a[j] in b[1..];
            var k :| 0 <= k < |b[1..]| && b[1..][k] == a[j];
            assert b[k + 1] == a[j];
          } else {
            assert a[i] == a[1..][i - 1] && a[j] == a[1..][j - 1];
          }
        }
      } else {
        SubsequenceKeepsUnique(a, b[1..]);
      }
    }
  }

  lemma {:induction false} CountNamedAppend(rs: seq<Record>, r: Record, name: string)
    ensures CountNamed(rs + [r], name) == CountNamed(rs, name) + (if HasEntry(r, "name", VStr(name)) then 1 else 0)
  {
    if rs != [] {
      assert (rs + [r])[1..] == rs[1..] + [r];
      CountNamedAppend(rs[1..], r, name);
    }
  }

  /** A name has a positive count exactly when `vacancy_exists` finds it. */
  lemma {:induction false} CountNamedPositive(rs: seq<Record>, name: string)
    ensures CountNamed(rs, name) > 0 <==> Utils.VacancyExists(rs, name)
  {
    if rs != [] {
      CountNamedPositive(rs[1..], name);
    }
  }

  /** In a store without duplicate names, a name that exists occurs exactly once. */
  lemma {:induction false} UniqueCountOne(rs: seq<Record>, name: string)
    requires AllNamed(rs) && UniqueNames(rs) && Utils.VacancyExists(rs, name)
    ensures CountNamed(rs, name) == 1
  {
    if HasEntry(rs[0], "name", VStr(name)) {
      assert !Utils.VacancyExists(rs[1..], name);
      CountNamedPositive(rs[1..], name);
    } else {
      UniqueCountOne(rs[1..], name);
    }
  }

  /**
   * Appending a listing whose name is not taken keeps names unique, and leaves
   * exactly one record with that name; adding the same listing again then
   * finds it taken.
   */
  lemma AddKeepsUnique(rs: seq<Record>, v: Vacancies.Vacancy)
    requires UniqueNames(rs) && NameTaken(rs, v.name) == Ok(false)
    ensures AllNamed(rs + [Vacancies.ToDict(v)]) && UniqueNames(rs + [Vacancies.ToDict(v)])
    ensures CountNamed(rs + [Vacancies.ToDict(v)], v.name) == 1
    ensures NameTaken(rs + [Vacancies.ToDict(v)], v.name) == Ok(true)
  {
    var d := Vacancies.ToDict(v);
    var s := rs + [d];
    assert forall i :: 0 <= i < |rs| ==> s[i] == rs[i];
    CountNamedAppend(rs, d, v.name);
    CountNamedPositive(rs, v.name);
    assert HasEntry(s[|rs|], "name", VStr(v.name));
  }

  /** With no record called `name`, filtering by it keeps everything. */
  lemma {:induction false} WithoutAbsentName(rs: seq<Record>, name: string)
    requires forall i :: 0 <= i < |rs| ==> "name" in rs[i] && rs[i]["name"] != VStr(name)
    ensures WithoutName(rs, name) == Ok(rs)
  {
    if rs != [] {
      WithoutAbsentName(rs[1..], name);
      assert [rs[0]] + rs[1..] == rs;
    }
  }

  /** Filtering after appending a record called `name` is filtering without it. */
  lemma {:induction false} WithoutNameAppend(rs: seq<Record>, r: Record, name: string)
    requires HasEntry(r, "name", VStr(name))
    ensures WithoutName(rs + [r], name) == WithoutName(rs, name)
  {
    if rs == [] {
      assert [r][1..] == [];
    } else {
      assert (rs + [r])[0] == rs[0] && (rs + [r])[1..] == rs[1..] + [r];
      WithoutNameAppend(rs[1..], r, name);
    }
  }

  /** Every record with another name survives the filter. */
  lemma {:induction false} WithoutNameKeepsOthers(rs: seq<Record>, name: string, i: nat)
    requires AllNamed(rs) && i < |rs| && rs[i]["name"] != VStr(name)
    ensures rs[i] in WithoutName(rs, name).value
  {
    if i > 0 {
      assert rs[1..][i - 1] == rs[i];
      WithoutNameKeepsOthers(rs[1..], name, i - 1);
    }
  }

  /** Removing by name keeps names unique and is idempotent. */
  lemma RemoveKeepsUnique(rs: seq<Record>, name: string)
    requires WithoutName(rs, name).Ok?
    ensures UniqueNames(rs) ==> UniqueNames(WithoutName(rs, name).value)
    ensures WithoutName(WithoutName(rs, name).value, name) == WithoutName(rs, name)
  {
    var kept := WithoutName(rs, name).value;
    if UniqueNames(rs) { SubsequenceKeepsUnique(kept, rs); }
    WithoutAbsentName(kept, name);
  }

  /** Removing a listing just added under a free name gives back the store as it was. */
  lemma RemoveUndoesAdd(rs: seq<Record>, v: Vacancies.Vacancy)
    requires NameTaken(rs, v.name) == Ok(false)
    ensures WithoutName(rs + [Vacancies.ToDict(v)], v.name) == Ok(rs)
  {
    WithoutNameAppend(rs, Vacancies.ToDict(v), v.name);
    WithoutAbsentName(rs, v.name);
  }

  /**
   * A store holding listing `a`: adding `a` again is a duplicate, adding a
   * listing `b` with another name appends it, leaving two records.
   */
  lemma StoreScenario(a: Vacancies.Vacancy, b: Vacancies.Vacancy)
    requires a.name != b.name
    ensures NameTaken([Vacancies.ToDict(a)], a.name) == Ok(true)
    ensures NameTaken([Vacancies.ToDict(a)], b.name) == Ok(false)
    ensures |[Vacancies.ToDict(a)] + [Vacancies.ToDict(b)]| == 2
  {
    assert HasEntry([Vacancies.ToDict(a)][0], "name", VStr(a.name));
  }

  /**
   * `[build(vac) for vac in data]`: every record rebuilt in order; the first
   * record that fails raises, and nothing is returned.
   */
  function BuildAll(build: Record -> Result<Vacancies.Vacancy, PyError>, rs: seq<Record>): (r: Result<seq<Vacancies.Vacancy>, PyError>)
    ensures r.Ok? <==> forall i :: 0 <= i < |rs| ==> build(rs[i]).Ok?
    ensures r.Ok? ==> |r.value| == |rs| && forall i :: 0 <= i < |rs| ==> r.value[i] == build(rs[i]).value
    ensures r.Err? ==> exists i :: 0 <= i < |rs| && build(rs[i]) == Err(r.error) &&
                                   forall j :: 0 <= j < i ==> build(rs[j]).Ok?
  {
    if rs == [] then Ok([])
    else
      var head := build(rs[0]);
      var tail := BuildAll(build, rs[1..]);
      assert forall i :: 1 <= i < |rs| ==> rs[i] == rs[1..][i - 1];
      if head.Err? then
        assert build(rs[0]) == Err(head.error);
        Err(head.error)
      else if tail.Err? then
        assert exists i :: 0 <= i < |rs| && build(rs[i]) == Err(tail.error) &&
                           forall j :: 0 <= j < i ==> build(rs[j]).Ok? by {
          var k :| 0 <= k < |rs[1..]| && build(rs[1..][k]) == Err(tail.error) &&
                   forall j :: 0 <= j < k ==> build(rs[1..][j]).Ok?;
          assert build(rs[k + 1]) == Err(tail.error);
          assert forall j :: 0 <= j < k + 1 ==> build(rs[j]).Ok? by {
            forall j | 0 <= j < k + 1 ensures build(rs[j]).Ok? {
              if j > 0 { assert rs[j] == rs[1..][j - 1]; }
            }
          }
        }
        Err(tail.error)
      else
        Ok([head.value] + tail.value)
  }

  /** Rebuilding after appending one more record appends its listing. */
  lemma {:induction false} BuildAllAppend(build: Record -> Result<Vacancies.Vacancy, PyError>, rs: seq<Record>, r: Record)
    requires BuildAll(build, rs).Ok? && build(r).Ok?
    ensures BuildAll(build, rs + [r]) == Ok(BuildAll(build, rs).value + [build(r).value])
  {
    if rs == [] {
      assert rs + [r] == [r] && [r][1..] == [];
      assert BuildAll(build, []) == Ok([]);
      var one := BuildAll(build, [r]);
      assert one.Ok? && |one.value| == 1;
      assert one.value[0] == build(r).value;
      assert one.value == [build(r).value];
      assert BuildAll(build, rs).value + [build(r).value] == [build(r).value];
    } else {
      var s := rs + [r];
      assert s[0] == rs[0] && s[1..] == rs[1..] + [r];
      BuildAllAppend(build, rs[1..], r);
      var h, vs := build(rs[0]).value, BuildAll(build, rs[1..]).value;
      assert BuildAll(build, s) == Ok([h] + (vs + [build(r).value]));
      assert BuildAll(build, rs) == Ok([h] + vs);
      assert [h] + (vs + [build(r).value]) == ([h] + vs) + [build(r).value];
    }
  }

  /** `[Vacancy(**vac) for vac in data]` as the code has it. */
  function LoadAllAsWritten(rs: seq<Record>): (r: Result<seq<Vacancies.Vacancy>, PyError>)
    ensures r.Ok? <==> forall i :: 0 <= i < |rs| ==> Vacancies.KeywordConstruct(rs[i]).Ok?
    ensures r.Ok? ==> |r.value| == |rs| &&
                      forall i :: 0 <= i < |rs| ==> r.value[i] == Vacancies.KeywordConstruct(rs[i]).value
  {
    BuildAll(Vacancies.KeywordConstruct, rs)
  }

  /**
   * `add_vacancy` as the code has it (writes assumed to succeed): `get_vacancies`
   * rebuilds listings with `Vacancy(**vac)`, which raises for a mapping with a
   * `name` key, and the duplicate check subscripts the rebuilt `Vacancy`
   * objects, which raises TypeError as soon as there is one.
   */
  function AddAsWritten(file: FileContent, v: Vacancies.Vacancy): (r: Result<FileContent, PyError>)
    ensures file.Unreadable? || file == Records([]) ==> r == Ok(Records([Vacancies.ToDict(v)]))
  {
    var loaded := if file.Unreadable? then Ok([]) else LoadAllAsWritten(file.items);
    match loaded
    case Err(e) => Err(e)
    case Ok(vs) =>
      if vs == [] then Ok(Records([Vacancies.ToDict(v)]))
      else Err(TypeError("'Vacancy' object is not subscriptable"))
  }

  /**
   * As written, every add to a readable, non-empty store raises; in
   * particular the second listing ever added is lost, with a TypeError.
   */
  lemma AsWrittenAddFails(rs: seq<Record>, v: Vacancies.Vacancy, w: Vacancies.Vacancy)
    ensures rs != [] ==> AddAsWritten(Records(rs), v).Err?
    ensures AddAsWritten(Records([]), v) == Ok(Records([Vacancies.ToDict(v)]))
    ensures AddAsWritten(Records([Vacancies.ToDict(v)]), w).Err? &&
            AddAsWritten(Records([Vacancies.ToDict(v)]), w).error.TypeError?
  {
    Vacancies.KeywordConstructRejectsToDict(v);
  }

  /** The intended reconstruction of `get_vacancies`: each stored mapping rebuilt by `FromRecord`. */
  function LoadAll(rs: seq<Record>): (r: Result<seq<Vacancies.Vacancy>, PyError>)
    ensures r.Ok? <==> forall i :: 0 <= i < |rs| ==> Vacancies.FromRecord(rs[i]).Ok?
    ensures r.Ok? ==> |r.value| == |rs| &&
                      forall i :: 0 <= i < |rs| ==> r.value[i] == Vacancies.FromRecord(rs[i]).value
    ensures r.Err? ==> exists i :: 0 <= i < |rs| && Vacancies.FromRecord(rs[i]) == Err(r.error)
  {
    BuildAll(Vacancies.FromRecord, rs)
  }

  /** A listing appended by `to_dict` is read back as itself, after the listings already there. */
  lemma LoadAllAppend(rs: seq<Record>, v: Vacancies.Vacancy)
    requires LoadAll(rs).Ok? && Vacancies.Valid(v)
    ensures LoadAll(rs + [Vacancies.ToDict(v)]) == Ok(LoadAll(rs).value + [v])
  {
    Vacancies.FromRecordToDict(v);
    BuildAllAppend(Vacancies.FromRecord, rs, Vacancies.ToDict(v));
  }

  /** The store: one JSON file whose name is fixed at construction. */
  class JsonJob {
    const filename: string
    /** What the file holds; only `SaveVacancies` changes it. */
    var file: FileContent

    /** `JsonJob(filename)`; `file` is whatever is on disk under that name. */
    constructor (filename: string, file: FileContent)
      ensures this.filename == filename && this.file == file
    {
      this.filename := filename;
      this.file := file;
    }

    /** `JsonJob()`: the file name defaults to "vacancies.json". */
    constructor Default(file: FileContent)
      ensures filename == DEFAULT_FILENAME && this.file == file
    {
      filename := DEFAULT_FILENAME;
      this.file := file;
    }

    /** `get_vacancies`: the stored records; a file that cannot be read or parsed reads as empty. */
    function GetVacancies(): (rs: seq<Record>)
      reads this
      ensures file.Unreadable? ==> rs == []
      ensures file.Records? ==> rs == file.items
    {
      if file.Unreadable? then [] else file.items
    }

    /** The listings the stored records describe, as `get_vacancies` is annotated to return. */
    function LoadListings(): (r: Result<seq<Vacancies.Vacancy>, PyError>)
      reads this
      ensures r.Ok? <==> forall i :: 0 <= i < |GetVacancies()| ==> Vacancies.FromRecord(GetVacancies()[i]).Ok?
      ensures r.Ok? ==> |r.value| == |GetVacancies()| &&
                        forall i :: 0 <= i < |r.value| ==> r.value[i] == Vacancies.FromRecord(GetVacancies()[i]).value
    {
      LoadAll(GetVacancies())
    }

    /** `_save_vacancies`: the whole file is replaced; an I/O error leaves it as it was. */
    method SaveVacancies(vs: seq<Record>, writeOk: bool) returns (status: Outcome)
      modifies this
      ensures writeOk ==> file == Records(vs) && status == Saved
      ensures !writeOk ==> file == old(file) && status == WriteFailed
    {
      if writeOk {
        file := Records(vs);
        status := Saved;
      } else {
        status := WriteFailed;
      }
    }

    /**
     * `add_vacancy`: read, reject a taken name, append `to_dict`, write. The
     * store never ends up holding two records with the same name.
     */
    method AddVacancy(v: Vacancies.Vacancy, writeOk: bool) returns (status: Outcome)
      modifies this
      ensures var taken := NameTaken(old(GetVacancies()), v.name);
              (taken.Err? ==> status == Raised(taken.error) && file == old(file)) &&
              (taken == Ok(true) ==> status == Duplicate && file == old(file)) &&
              (taken == Ok(false) && writeOk ==>
                 status == Saved && file == Records(old(GetVacancies()) + [Vacancies.ToDict(v)])) &&
              (taken == Ok(false) && !writeOk ==> status == WriteFailed && file == old(file))
      ensures UniqueNames(old(GetVacancies())) ==> UniqueNames(GetVacancies())
      ensures status == Saved ==> CountNamed(GetVacancies(), v.name) == 1
    {
      var vacancies := GetVacancies();
      var taken := NameTaken(vacancies, v.name);
      match taken
      case Err(e) =>
        status := Raised(e);
      case Ok(b) =>
        if b {
          status := Duplicate;
        } else {
          if UniqueNames(vacancies) {
            AddKeepsUnique(vacancies, v);
          }
          var d := Vacancies.ToDict(v);
          CountNamedAppend(vacancies, d, v.name);
          CountNamedPositive(vacancies, v.name);
          status := SaveVacancies(vacancies + [d], writeOk);
        }
    }

    /** `remove_vacancy`: read, keep the records with another name, write. */
    method RemoveVacancy(name: string, writeOk: bool) returns (status: Outcome)
      modifies this
      ensures var kept := WithoutName(old(GetVacancies()), name);
              (kept.Err? ==> status == Raised(kept.error) && file == old(file)) &&
              (kept.Ok? && writeOk ==> status == Saved && file == Records(kept.value)) &&
              (kept.Ok? && !writeOk ==> status == WriteFailed && file == old(file))
      ensures status == Saved ==> !Utils.VacancyExists(GetVacancies(), name)
      ensures UniqueNames(old(GetVacancies())) ==> UniqueNames(GetVacancies())
    {
      var vacancies := GetVacancies();
      match WithoutName(vacancies, name)
      case Err(e) =>
        status := Raised(e);
      case Ok(kept) =>
        RemoveKeepsUnique(vacancies, name);
        status := SaveVacancies(kept, writeOk);
    }
  }
}
