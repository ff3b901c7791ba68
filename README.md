# Job-listing search and store, modelled in Dafny

This project models the core of a small job-listing tool. The tool searches the
HeadHunter vacancies API page by page, turns raw listings into validated
`Vacancy` values, formats their salaries, and keeps chosen listings in a JSON
file. It adds listings with duplicate rejection by name and removes them by name.

Modules, one per component:

- `Wrappers`: `Option` and `Result`.
- `Json`: the dynamic values the Python code handles (`Value`, `Record` = a dict
  with string keys, `PyError` for the exceptions raised).
- `Text`: Python string operations used by the code: `str.strip`,
  `str.startswith`, the code-point order of `str`, and `str(int)`, with
  contracts and lemmas stating their properties.
- `Utils` (src/utils.py): `format_salary`, `valid_salary`, `vacancy_exists`.
- `Vacancies` (class `Vacancy` of src/subclasses.py): name/url/salary
  validation, construction, `to_dict`, `__eq__` and the four orderings.
- `HeadHunter` (class `HeadHunterAPI`): the paginated fetch loop as a class
  method with a `while` loop. It updates the `params` dict field and is proved
  against the specification function `Collected`.
- `Storage` (class `JsonJob`): the file is a `file` field holding either
  `Unreadable` or the stored records. `add_vacancy`, `remove_vacancy` and
  `_save_vacancies` are methods that modify it.

The network is an oracle. `connected` is the result of the connectivity check,
and `responses[p]` is the server's answer to the request for page `p`. That
answer is a failure (HTTP status, network, undecodable body) or a decoded body
with optional `pages` and `items` keys. Writing the file takes a `writeOk` flag.
A failed write leaves the file as it was.

In three places the model follows behaviour of the code that a reader may not expect:

- Without a `pages` key, `total_pages` keeps its initial value 1. So only page 0
  is requested (`HeadHunter.NoPagesKeyFetchesOnePage`). The loop does not run
  on until an empty page.
- Salary bounds are tested by Python truthiness, so a bound of 0 counts as
  missing.
- The URL check is `startswith('http')`: `"httpfoo"` is accepted.

## Model

| member | source | states |
|---|---|---|
| `Utils.FormatSalary` | src/utils.py:18-34 | None gives the sentinel "Зарплата не указана". Every result is the sentinel or starts with "Зарплата: ". The result is the sentinel exactly when the data is None or neither bound is truthy (absent or 0). Both bounds truthy give "Зарплата: от {from} до {to} {currency}"; only the lower one gives "Зарплата: от {from} {currency}"; only the upper one gives "Зарплата: до {to} {currency}". |
| `Utils.Truthy` | src/utils.py:27-31 | a bound counts as set iff it is neither absent/null nor 0 |
| `Utils.Currency` | src/utils.py:25 | the currency is the value of the `currency` key, or "руб." when the key is absent |
| `Utils.OneBoundTextInjective` | src/utils.py:29-32 | the text for a salary with one bound determines that bound and the currency |
| `Utils.ToTextDiffers` | src/utils.py:27-34 | the upper-bound-only text differs from the lower-bound-only text, the both-bounds text and the sentinel |
| `Utils.FormatSalaryExample` | tests/test_utils.py:28-31 | from 50000 to 70000 with currency "руб." is exactly "Зарплата: от 50000 до 70000 руб." |
| `Utils.FormatSalaryFromOnlyExample` | src/utils.py:29-30 | only a lower bound and no currency key: "Зарплата: от 50000 руб.", so the currency defaults to "руб." |
| `Utils.FormatSalaryToOnlyExample` | src/utils.py:31-32 | a zero lower bound counts as missing: "Зарплата: до 70000 руб." |
| `Utils.RangeTextInjective` | src/utils.py:27-28 | the text for a salary with both bounds determines both bounds and the currency, so no information is lost |
| `Utils.ValidSalary` | src/utils.py:37-41 | an integer >= 0 is returned unchanged; anything else (negative, a string such as "100k", null, a list) gives the sentinel |
| `Utils.ValidSalaryIdempotent` | src/utils.py:37-41 | validating twice equals validating once; the result is always an amount >= 0 or the sentinel |
| `Utils.VacancyExists` | src/utils.py:58-60 | true iff some record has key `name` equal to the given string; records without a `name` key never match |
| `Text.Strip` | src/subclasses.py:22 | `s.strip()` is no longer than `s` and neither starts nor ends with whitespace |
| `Text.StartsWith` | src/subclasses.py:28 | if `s.startswith(p)`, then `s` is `p` followed by the rest of `s` |
| `Text.StartsWithAppend` | src/subclasses.py:28 | `p + t` starts with `p`; `s` starts with `p` iff `s` is `p` followed by the rest of `s` |
| `Text.LexLess` | src/subclasses.py:56-78 | Python's `a < b` on `str`, lexicographic by code point with a proper prefix first; it never holds between equal strings |
| `Text.IntToDecimal` | src/utils.py:28 | `str(n)` is non-empty and starts with a minus sign iff n is negative |
| `Text.StripEmpty` | src/subclasses.py:22 | `s.strip()` is empty iff every character of `s` is whitespace |
| `Text.LexLessTotal` | src/subclasses.py:56-78 | the `str` order is total and asymmetric: two strings are equal iff neither is less than the other |
| `Text.LexLessTransitive` | src/subclasses.py:56-60 | the `str` order is transitive |
| `Text.DecimalRoundTrip` | src/utils.py:28 | the decimal text of a number parses back to the number |
| `Text.IntToDecimalInjective` | src/utils.py:28 | different integers are rendered as different texts |
| `Vacancies.ValidateName` | src/subclasses.py:20-24 | succeeds iff the value is a string with a non-whitespace character, and then returns it unchanged; otherwise raises ValueError with the source's message |
| `Vacancies.ValidateUrl` | src/subclasses.py:26-30 | succeeds iff the value is a string whose first four characters are "http", and then returns it unchanged; otherwise raises ValueError with the source's message |
| `Vacancies.ValidateSalary` | src/subclasses.py:32-36 | the same rule as `valid_salary`: an amount >= 0 is kept, anything else becomes the sentinel |
| `Vacancies.New` | src/subclasses.py:14-18 | construction succeeds iff name and url are both valid. The name is checked first, then the url. On success the fields are the inputs, the salary is validated, and the result satisfies `Valid`. |
| `Vacancies.ToDict` | src/subclasses.py:39-45 | the mapping has exactly the keys name, url, description and salary, and each holds the listing's field of that name |
| `Vacancies.FromRecord` | src/subclasses.py:161 | the intended rebuilding from a stored mapping. It succeeds iff all four keys are present and the name and url are valid. A missing key raises KeyError for a key that is missing. A mapping with all four keys fails only by ValueError. A success carries the mapping's name, url and description, and its validated salary. |
| `Vacancies.FromRecordToDict` | src/subclasses.py:39-45 | a valid listing is rebuilt unchanged from its `to_dict` mapping |
| `Vacancies.KeywordConstruct` | src/subclasses.py:161 | `Vacancy(**vac)` as written: a key that is not a parameter name (`_name`, `_url`, `_description`, `_salary`) raises TypeError |
| `Vacancies.KeywordConstructRejectsToDict` | src/subclasses.py:161 | no `to_dict` mapping can be passed to `Vacancy(**vac)`: it always raises TypeError |
| `Vacancies.Eq` | src/subclasses.py:50-54 | `__eq__`: same name, url and salary; equal listings are neither `<` nor `>` each other, and are both `<=` and `>=` |
| `Vacancies.Lt` | src/subclasses.py:56-60 | `__lt__` compares the names; a listing is never less than one with the same name |
| `Vacancies.Le` | src/subclasses.py:62-66 | `__le__` holds iff `__gt__` does not |
| `Vacancies.Gt` | src/subclasses.py:68-72 | `a > b` iff `b < a`, and never together with `a < b` |
| `Vacancies.Ge` | src/subclasses.py:74-78 | `__ge__` holds iff `__lt__` does not |
| `Vacancies.EqIffSameDictBarDescription` | src/subclasses.py:50-54 | two listings are equal iff their mappings agree on every key except description |
| `Vacancies.EqEquivalence` | src/subclasses.py:50-54 | `__eq__` is reflexive, symmetric and transitive |
| `Vacancies.OrderByName` | src/subclasses.py:56-78 | `a < b` iff `b > a`; `a <= b` iff `b >= a`; `a <= b` iff not `a > b`; `a >= b` iff not `a < b`; names are equal iff neither `<` nor `>` holds |
| `Vacancies.LtTransitive` | src/subclasses.py:56-60 | `<` on listings is transitive |
| `Vacancies.EqUnordered` | src/subclasses.py:50-78 | listings that are equal, or only share a name, are neither `<` nor `>` each other, and are both `<=` and `>=` |
| `HeadHunter.NextTotal` | src/subclasses.py:110-111 | `data.get('pages', total_pages)`: the body's `pages` when present, else the total in effect |
| `HeadHunter.Collected` | src/subclasses.py:102-129 | the items the loop collects from a state: empty unless the current page is below the total and continues, and then they start with that page's items |
| `HeadHunter.Requests` | src/subclasses.py:102-106 | the requests the loop sends from a state: none iff the page is not below the total, and either as many as the pages fetched or one more |
| `HeadHunter.CollectedIsConcatenation` | src/subclasses.py:98-129 | from any loop state, the collected items are the concatenation of the items of the consecutive pages fetched. Each of those pages had a non-empty `items` list. When one extra request is sent, the page it asked for did not continue. |
| `HeadHunter.StopCondition` | src/subclasses.py:100-127 | from page p with the `total_pages` in effect there (`TotalBefore`), with k the page after the last one fetched: every page fetched was below its total and continued. No extra request is sent iff k is not below its total. One extra request is sent iff k is below its total and its answer does not continue. |
| `HeadHunter.LoopStop` | src/subclasses.py:98-127 | the same, from the loop's start (page 0, total 1) |
| `HeadHunter.StopHidesLaterPages` | src/subclasses.py:112-127 | once a page fails or has no items, the answers to later pages do not change the result or the number of requests |
| `HeadHunter.ResultIsPrefixOfPages` | src/subclasses.py:98-129 | the result is `items(0) ++ ... ++ items(k-1)` for the pages 0..k-1 fetched. All of them had items. Between 1 and k+1 requests are sent. |
| `HeadHunter.FirstPageStops` | src/subclasses.py:112-127 | an HTTP, network or decode failure, a missing `items` or an empty `items` on page 0 gives the empty result after exactly one request |
| `HeadHunter.NoPagesKeyFetchesOnePage` | src/subclasses.py:100-111 | without a `pages` key, only page 0 is requested and its items are the result |
| `HeadHunter.SecondPageEmpty` | src/subclasses.py:112-113 | page 0 with items followed by a page 1 with none (or a failure) gives exactly page 0's items, after at most two requests |
| `HeadHunter.HeadHunterAPI.constructor` | src/subclasses.py:82-86 | base URL, User-Agent header and the initial params `text=""`, `page=0`, `per_page=100` |
| `HeadHunter.HeadHunterAPI.GetVacancies` | src/subclasses.py:91-129 | if not connected: the empty result, params unchanged, no request sent. Otherwise the result is `Collected(responses, 0, 1)`. The requests carry pages 0, 1, ... in order. Afterwards `params` has `text` set to the query and `page` set to the last page requested. |
| `Storage.NameTaken` | src/subclasses.py:144 | the duplicate check: Ok(false) iff every record has a name and none is the given one. Ok(true) iff some record has the name and every record before it has a `name` key. Otherwise it raises KeyError('name'). |
| `Storage.NameTakenIsVacancyExists` | src/subclasses.py:144 | on records that all have names, the duplicate check agrees with `vacancy_exists` |
| `Storage.WithoutName` | src/subclasses.py:168 | raises KeyError iff some record lacks `name`. Otherwise the result is an order-preserving subsequence of the records, none of them named as given, of length `|records| - count(name)`. So it is exactly the other records, in order. |
| `Storage.WithoutNameKeepsOthers` | src/subclasses.py:168 | every record with another name survives the filter |
| `Storage.UniqueCountOne` | src/subclasses.py:142-148 | in a store without duplicate names, an existing name occurs exactly once |
| `Storage.AddKeepsUnique` | src/subclasses.py:142-148 | appending a listing whose name is free keeps names unique and leaves exactly one record with that name. Adding it again then finds the name taken. |
| `Storage.RemoveKeepsUnique` | src/subclasses.py:166-169 | removing by name keeps names unique and is idempotent |
| `Storage.RemoveUndoesAdd` | src/subclasses.py:166-169 | removing a listing just added under a free name gives back the previous store |
| `Storage.StoreScenario` | src/subclasses.py:142-148 | a store holding listing A: adding A again is a duplicate; adding B with another name appends it, giving two records |
| `Storage.BuildAll` | src/subclasses.py:161 | the list comprehension that rebuilds each stored mapping. It succeeds iff every mapping rebuilds, and then its i-th listing is the i-th mapping rebuilt. On failure the error is that of some mapping that fails, all mappings before which rebuild. |
| `Storage.BuildAllAppend` | src/subclasses.py:161 | rebuilding the records with one more mapping appended gives the earlier listings followed by the new one |
| `Storage.LoadAllAsWritten` | src/subclasses.py:157-161 | `[Vacancy(**vac) for vac in data]` as written: it succeeds iff `Vacancy(**vac)` succeeds on every mapping, and then its i-th listing is that of the i-th mapping |
| `Storage.AddAsWritten` | src/subclasses.py:142-148 | `add_vacancy` as written: on an unreadable or empty store it writes the single new mapping |
| `Storage.AsWrittenAddFails` | src/subclasses.py:142-161 | as written, adding to any non-empty readable store raises. The second listing ever added is lost with a TypeError. |
| `Storage.LoadAll` | src/subclasses.py:157-164 | the intended rebuilding of all stored listings: it succeeds iff every mapping rebuilds by `FromRecord`, and then its i-th listing is the i-th mapping rebuilt. A failure carries the error of a mapping that fails. |
| `Storage.LoadAllAppend` | src/subclasses.py:161 | a listing appended with `to_dict` is read back as itself, after the listings already stored |
| `Storage.JsonJob.constructor` | src/subclasses.py:132-133 | the store keeps its file name; the file content is whatever is on disk |
| `Storage.JsonJob.Default` | src/subclasses.py:132-133 | without a file name, the store uses "vacancies.json" |
| `Storage.JsonJob.GetVacancies` | src/subclasses.py:157-164 | an unreadable file (absent, not JSON, I/O error) reads as the empty sequence; otherwise the stored records |
| `Storage.JsonJob.LoadListings` | src/subclasses.py:157-161 | the listings rebuilt from the stored records: it succeeds iff every record rebuilds, and then its i-th listing is the i-th record rebuilt |
| `Storage.JsonJob.SaveVacancies` | src/subclasses.py:150-155 | a successful write replaces the whole file content; a failed write leaves it unchanged |
| `Storage.JsonJob.AddVacancy` | src/subclasses.py:142-148 | KeyError, or a taken name: the file is unchanged. Otherwise the new content is the old records with `to_dict(v)` appended (unless the write fails). Name uniqueness is preserved, and after a save exactly one record has the name. |
| `Storage.JsonJob.RemoveVacancy` | src/subclasses.py:166-169 | the new content is exactly the old records with another name, in order. An unreadable store becomes an empty one. After a save no record has the name, and name uniqueness is preserved. |

## Left out

- `connect_to_api` and the HTTP requests (`requests.get`, `raise_for_status`, headers, query-string encoding) are replaced by the `connected` flag and the `responses` oracle. `HeadHunterAPI.connect` is that flag.
- HeadHunter.HeadHunterAPI.GetVacancies: the server is a finite sequence of answers, and every page past its end fails with a network error. A server that keeps raising `pages` forever, on which the Python loop never ends, is not modelled.
- A decoded body that is not a JSON object (an `AttributeError` from `data.get`), and a `pages` value that is not an integer, are not modelled. An `items` value of JSON null is treated like a missing key: both end the loop with nothing appended.
- An `items` value that is truthy but not a list is not modelled. `extend` would append the characters of a string or the keys of an object, and a number raises a TypeError that no `except` clause catches, so the client can then raise. `Response` only holds a list of records.
- A stored file that is not valid UTF-8 raises UnicodeDecodeError, which `get_vacancies` does not catch. Valid JSON that is not an array of objects raises TypeError at `Vacancy(**vac)`. `FileContent` represents neither: a read is either `Unreadable` (absent, not JSON, an I/O error) or an array of records.
- File I/O and JSON encoding (`open`, `json.load`, `json.dump` with indentation and `ensure_ascii=False`) are left out. The file is the `file` field. A read failure is `Unreadable`. A write failure is the `writeOk` flag, and it leaves the content unchanged; a partially written file is not modelled.
- `read_json_file` and `write_json_file` of src/utils.py are not called by the core and are not modelled.
- Storage.JsonJob.GetVacancies: returns the stored name-keyed records, as `add_vacancy` and `remove_vacancy` use them. It does not rebuild `Vacancy` objects with `Vacancy(**vac)`, which always fails (see Findings). `LoadListings` gives the intended rebuilt listings.
- Float salaries and float bounds, and Python's `bool`-is-`int` rule, are not modelled. Amounts are integers.
- `format_salary` with a currency key whose value is null (rendered as "None") is not modelled. The currency is a string or absent.
- `str.strip` is modelled by a fixed set of whitespace characters: those for which Python's `str.isspace` holds.
- Comparing a `Vacancy` with a non-`Vacancy` is not modelled: `__eq__` gives False and the orderings give `NotImplemented`. The model is typed, so both operands are listings.
- `__repr__`, `print` logging, the interactive flow of main.py and the abstract base classes of src/abstract_classes.py are left out.

## Findings

| source | as written | input that shows it | evidently intended | confidence | as-written member | corrected member |
|---|---|---|---|---|---|---|
| src/subclasses.py:157-161 | `get_vacancies` rebuilds every stored mapping with `Vacancy(**vac)`. The mapping's keys (`name`, `url`, ...) are not the constructor's parameter names (`_name`, `_url`, ...), so this raises TypeError, which the `except` clause does not catch. If it did rebuild listings, `add_vacancy` and `remove_vacancy` would then subscript `Vacancy` objects (`v['name']`), which also raises TypeError. | add one listing to an empty store, then call `add_vacancy` with a second listing: it raises, and the file keeps one entry (`Storage.AsWrittenAddFails`) | the stored entries are name-keyed records. The duplicate check and the filter read their `name` key, and rebuilding is field by field (`Vacancies.FromRecord`, round trip `Vacancies.FromRecordToDict`, `Storage.LoadAllAppend`). Here a second listing with another name is appended (`Storage.StoreScenario`, `Storage.AddKeepsUnique`). | high; not executed | `Storage.AddAsWritten` | `Storage.JsonJob.AddVacancy` |
