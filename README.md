# Student resource controller, modelled in Dafny

A model of `SiswaController`, the Laravel resource controller for the
`siswa` (student) table. A row has four fields: `id`, `nama` (name), `kelas`
(class label, e.g. "XII IPA 1") and `umur` (age). The controller exposes
`index`, `store`, `show`, `update` and `destroy`. Each action validates its
input, calls the table, and maps its outcome to one HTTP status: 200, 201,
204, 404, 422 or 500.

Files:

- `siswa_validation.dfy` (module `SiswaValidation`): the rule lists of the
  three fields, stated as predicates.
  - The two regular expressions become character classes plus a greedy
    matcher for the `kelas` pattern, proved equal to the pattern's meaning
    (a split into five non-empty runs).
  - `required` means present, not null, and not a string that PHP's `trim`
    would empty.
  - `Validate` gives either the validated data (a `Patch`: one optional
    slot per field) or the set of failing field names, which are the keys
    of `messages`. It runs in `Required` mode for `store` and in
    `Sometimes` mode for `update`.
- `siswa_controller.dfy` (module `SiswaController`): the row record, the
  response, and class `SiswaTable`.
  - `SiswaTable` holds `rows: map<int, Siswa>` and the auto-increment
    counter `nextId`.
  - `Valid()` is the table invariant: each key is the row's id, ids are
    below the counter, and every stored row passes the creation rules.
    Every action preserves it.
  - The one action per controller method takes booleans that say
    whether the store call it makes throws. A database failure is an input
    to the model, not something it predicts.
- `siswa_scenario.dfy` (module `SiswaScenario`): the worked example. It
  creates "Ani Lestari", "XII IPA 1", 17, fetches her back, and then
  refuses an update to age 19, which leaves the row unchanged. Deleting and
  fetching a missing id give 500 and 404. The checks are written as lemmas
  and as a client method whose assertions follow from the actions'
  contracts alone.

A few behaviours are modelled as the code has them:

- `destroy` reports a missing id as 500, not 404.
- `show` reports any lookup failure, including a database error, as 404.
- `update` looks the id up before it validates, so a missing id gives 404
  even when the input is invalid.
- A database error during `update`'s lookup is not a `ModelNotFoundException`,
  so it gives 500.

## Model

| member | source | states |
|---|---|---|
| SiswaValidation.Span | auth_mahasiswa/app/Http/Controllers/SiswaController.php:32 | a run such as `[XIV]+` or `\s+` has a longest prefix: its length fits in the string, every character before it is in the class, and the character after it is not |
| SiswaValidation.SpanExact | auth_mahasiswa/app/Http/Controllers/SiswaController.php:32 | any length with those three properties is the run's length, so a run cannot stop early or late |
| SiswaValidation.MatchKelasSound | auth_mahasiswa/app/Http/Controllers/SiswaController.php:32 | every `kelas` the matcher accepts splits into X/I/V letters, whitespace, IPA or IPS, whitespace and digits, each part non-empty |
| SiswaValidation.MatchKelasComplete | auth_mahasiswa/app/Http/Controllers/SiswaController.php:32 | every string with such a split is accepted by the matcher |
| SiswaValidation.MatchKelasIsPattern | auth_mahasiswa/app/Http/Controllers/SiswaController.php:76 | the matcher accepts a string if and only if the `kelas` pattern (X/I/V letters, whitespace, IPA or IPS, whitespace, digits) describes it |
| SiswaValidation.Validate | auth_mahasiswa/app/Http/Controllers/SiswaController.php:74-78 | validation is rejected exactly when some field fails; the reported fields are exactly the failing ones; on success the data holds exactly the supplied field values |
| SiswaValidation.StoreAcceptsExactly | auth_mahasiswa/app/Http/Controllers/SiswaController.php:30-34 | creation validates if and only if all three fields are present and pass their rules, and the validated data then has every field |
| SiswaValidation.SometimesChecksOnlySupplied | auth_mahasiswa/app/Http/Controllers/SiswaController.php:75-77 | under `sometimes` an absent field is never reported, and a present field is reported exactly when creation would report it |
| SiswaValidation.ValidatedDataSatisfiesRules | auth_mahasiswa/app/Http/Controllers/SiswaController.php:30-34 | every value in the validated data passes its field's full rule list |
| SiswaValidation.OtherKeysIgnored | auth_mahasiswa/app/Http/Controllers/SiswaController.php:30-34 | adding a key other than nama/kelas/umur leaves the verdict, the reported fields and the validated data unchanged |
| SiswaValidation.AcceptedKelasShape | auth_mahasiswa/app/Http/Controllers/SiswaController.php:32 | an accepted `kelas` has 1 to 10 characters, starts with X, I or V, ends with a digit, holds IPA or IPS inside it, and has a Roman numeral of at most four letters |
| SiswaValidation.KelasRuleIsPatternAndLength | auth_mahasiswa/app/Http/Controllers/SiswaController.php:32 | a `kelas` string passes its whole rule list if and only if it matches the pattern and has at most 10 characters; `required` and `string` add nothing more |
| SiswaValidation.AcceptedUmurRange | auth_mahasiswa/app/Http/Controllers/SiswaController.php:33 | `umur` is accepted if and only if it is an integer from 6 to 18 |
| SiswaValidation.AcceptedNamaShape | auth_mahasiswa/app/Http/Controllers/SiswaController.php:31 | an accepted `nama` has 1 to 255 characters, all letters or whitespace, and at least one character that trim keeps |
| SiswaController.CreatedRowFields | auth_mahasiswa/app/Http/Controllers/SiswaController.php:37 | the row `create` makes from validated data holds exactly the three supplied values under the assigned id, and is well-formed |
| SiswaController.PartialUpdateFields | auth_mahasiswa/app/Http/Controllers/SiswaController.php:81 | a partial update keeps the id and every field not supplied, and takes the supplied value of every field that is |
| SiswaController.PartialUpdateWellFormed | auth_mahasiswa/app/Http/Controllers/SiswaController.php:74-81 | a partial update of a well-formed row yields a well-formed row |
| SiswaController.Listing | auth_mahasiswa/app/Http/Controllers/SiswaController.php:18 | the listing holds exactly the rows whose ids fall in the range, each once, in strictly ascending id order |
| SiswaController.ListingHoldsTable | auth_mahasiswa/app/Http/Controllers/SiswaController.php:18 | when every id lies in the range, the listing's elements are exactly the table's rows |
| SiswaController.SiswaTable.Index | auth_mahasiswa/app/Http/Controllers/SiswaController.php:15-22 | returns 200 with every row of the table, each once and in ascending id order, or 500 when the store throws; it changes nothing |
| SiswaController.SiswaTable.Store | auth_mahasiswa/app/Http/Controllers/SiswaController.php:26-53 | on a validation failure: 422 with the failing fields, table unchanged. On a write failure: 500, table unchanged. Otherwise: 201 with one new row under a fresh id, holding exactly the validated fields, and no other row changes |
| SiswaController.SiswaTable.Show | auth_mahasiswa/app/Http/Controllers/SiswaController.php:57-65 | returns 200 with the stored row when the id is present and the read succeeds, otherwise 404; it changes nothing |
| SiswaController.SiswaTable.Update | auth_mahasiswa/app/Http/Controllers/SiswaController.php:68-103 | a lookup failure gives 500 and a missing id gives 404, both before validation. Invalid supplied fields give 422. A write failure gives 500. The table is unchanged in all four. Otherwise: 200 with the patched row, and only that row changes |
| SiswaController.SiswaTable.Destroy | auth_mahasiswa/app/Http/Controllers/SiswaController.php:107-117 | on an existing id with no store failure: 204 with no body, and exactly that row is removed. A missing id or any failure gives 500 with the table unchanged |
| SiswaScenario.WholeBodyAccepted | auth_mahasiswa/app/Http/Controllers/SiswaController.php:30-37 | a body with three valid values validates to exactly those values |
| SiswaScenario.AniNamaAccepted | auth_mahasiswa/app/Http/Controllers/SiswaController.php:31 | "Ani Lestari" passes the `nama` rules |
| SiswaScenario.AniKelasAccepted | auth_mahasiswa/app/Http/Controllers/SiswaController.php:32 | "XII IPA 1" passes the `kelas` rules |
| SiswaScenario.AniAccepted | auth_mahasiswa/app/Http/Controllers/SiswaController.php:30-34 | the example body for "Ani Lestari", "XII IPA 1", 17 validates to exactly those values |
| SiswaScenario.AgeNineteenRejected | auth_mahasiswa/app/Http/Controllers/SiswaController.php:77 | an update that only sets `umur` to 19 is rejected, with `umur` as the only failing field |
| SiswaScenario.KelasCounterexamples | auth_mahasiswa/app/Http/Controllers/SiswaController.php:32 | a lower-case Roman numeral and a missing class number are both refused |

## Left out

- The `Log::error` calls. They write diagnostics and change nothing the caller sees.
- The Indonesian message texts. `ErrorKind` names each `error` text. The
  `message` detail from `$e->getMessage()` is not modelled.
- Validation error contents. `messages` is modelled as its key set, the
  failing field names. The lists of reasons for each field are not modelled.
- Loose typing in the `integer` rule. Only an integer value passes. A numeric
  string such as "17", or a boolean, is rejected, although PHP's
  `FILTER_VALIDATE_INT` would accept some of them.
- `required` on arrays. A value that is neither null, an integer nor a string
  counts as filled, even an empty array that Laravel would reject. Such a value
  then fails `string` or `integer` anyway, so the set of failing fields is the
  same.
- PCRE details of the patterns:
  - `$` also matching before a final newline;
  - matching on bytes rather than characters;
  - locale-dependent whitespace.
  Strings are sequences of characters, and length is counted in characters,
  as `mb_strlen` does.
- Request middleware that trims strings or turns empty strings into null.
  Routing runs this before the controller, so it is outside this model.
- The route parameter `$id` is a string in the request; the model takes an
  integer id.
- The `Siswa` model class, its `$fillable` list and its timestamp columns.
  `app/Models/Siswa.php` is not part of this model. The model assumes that
  `nama`, `kelas` and `umur` are mass-assignable, and leaves timestamps out.
- The database itself:
  - Each store call is atomic: it either succeeds or throws with no change.
  - A failed insert does not consume an auto-increment id.
  - Connections, transactions and concurrent requests are not modelled.
- Eloquent's skip of the write when an update changes nothing. The model lets
  `writeFails` stand for any failure of the write step.
- Listing order. The source leaves the order of `index` to the store. The
  model lists rows in ascending id order, which is a modelling choice.
