# url_gravy shortening core, modelled in Dafny

url_gravy is a URL shortener: given a target URL and an optional
user-chosen suffix, it stores a redirect record and returns a short URL.
This project models the allocation core: suffix validation and generation,
the claim-by-insert step, and the redirect table it relies on.

- `wrappers.dfy` (`Wrappers`): `Option` and `Result`. They stand for Python's
  `None` and for raised exceptions.
- `settings.dfy` (`Settings`): `AUTO_SUFFIX_LEN`, `APP_HOST`, `APP_PORT` and
  `BASE_URL` as constants. The deployed values are not part of this model,
  so placeholders are used. The project verifies with a suffix width from 4
  to 7. At widths 2 and 3 only `Shortener.UserValidationExamples` fails,
  because 789087 no longer fits the width. Other widths are not claimed.
- `codec.dfy` (`Codec`): the `short_url` codec (`encode_url`,
  `decode_url`). That library is not part of this model, so a stand-in is
  used. It writes ids in base 36 over `0-9a-z`, left-padded to the requested
  width. Like the library, it produces a longer string when the id does not
  fit in that width. A failed decode (`None`) stands for `ValueError`. The
  model relies on two proved properties: the round trip (`DecodeEncode`) and
  the exact width for ids that fit (`EncodeLength`). `EncodeDecode` is a
  third, stand-in-specific property. With it, validation is characterised as
  "outside the auto-suffix space" in both directions.
- `models.dfy` (`Models`): the `Redirect` row `{id, suffix, target,
  created_on}` and the table constraints from `models.py`, stated as
  predicates. Dates are day numbers.
- `crud.py` is modelled in `crud.dfy` (`Crud`) as the class `RedirectTable`.
  It holds the rows in id order and the auto-increment counter `nextId`.
  Its invariant `Valid()` covers positive, strictly increasing, never-reused
  keys and unique suffixes. `get_last_redirect` and `get_redirect_url` are
  functions over that state. `create_redirect` and `delete_redirects` are
  methods on it. An insert is one atomic, unique-checked step. It fails with
  `DuplicateSuffix`, or with `OtherIntegrity` when the caller-supplied
  `otherFailure` flag says the database refused it for another reason.
- `shorten.py` (SQLAlchemy version) is modelled in `shorten.dfy`
  (`Shorten`) as `ValidateUserSuffix`, `GenerateSuffix` and `Execute`.
- `shortener.py` (MySQL version) is modelled in `shortener.dfy`
  (`Shortener`). It runs against the same store, and `get_last_record` and
  `create_record` mean the same as their crud.py counterparts. Its
  validation and generation are proved equal to the SQLAlchemy version's.
  `update_db` and `execute` are modelled as written. A corrected pair is
  modelled too (see Findings).

The clock (`date.today`) is the `today` parameter. Whether the database
refuses an insert for a reason other than the suffix index is the
`otherFailure` parameter.

## Behaviour of the code worth noting

- `execute` in shorten.py returns `APP_HOST:APP_PORT/suffix`
  (url_gravy/shorten.py:35). The MySQL version returns `BASE_URL/suffix`
  (url_gravy/shortener.py:33).
- shorten.py turns every IntegrityError into `URLNotAvailableError`,
  whether or not it came from the unique suffix index
  (url_gravy/shorten.py:31-33).
- A suffix of the auto width that decodes is rejected whatever id it
  decodes to, issued or not (url_gravy/shorten.py:46-51).
- `delete_redirects` returns nothing (url_gravy/crud.py:54).

## Model

| member | source | states |
|---|---|---|
| `Codec.DecodeEncode` | test_main.py:68-69 | decoding the encoding of any id at any width gives that id back |
| `Codec.Encode` | url_gravy/shorten.py:66 | `encode_url(n, width)`: a string of alphabet characters at least `width` long |
| `Codec.Decode` | url_gravy/shorten.py:46-48 | `decode_url`: fails, standing for ValueError, exactly when the suffix holds a character outside the alphabet |
| `Codec.EncodeLength` | url_gravy/shorten.py:53-66 | an encoding is never narrower than the requested width, and exactly that wide if and only if the id is below 36 to the power of the width |
| `Shorten.ValidateUserSuffix` | url_gravy/shorten.py:37-51 | a suffix is accepted exactly when no id that fits the auto width encodes to it. Other widths and undecodable suffixes are accepted; every encoding of a fitting id is rejected, issued or not |
| `Shorten.AutoSuffixBeyondCapacityAccepted` | url_gravy/shorten.py:43-45 | once ids no longer fit the auto width, the generated suffixes are longer and validation would accept them from a user |
| `Shorten.GenerateSuffix` | url_gravy/shorten.py:53-66 | the encoding of 1 on an empty table, else of the newest record's id plus one. It decodes to an id above every stored id and no greater than the next key. It has the auto width exactly when that id fits |
| `Shorten.GeneratedSuffixIsFresh` | url_gravy/shorten.py:27-33 | on a table changed only by the shortening flow and deletions, a generated suffix is not yet taken while the next key fits the auto width. Only a concurrent race can make the insert collide |
| `Shorten.Execute` | url_gravy/shorten.py:14-35 | a rejected user suffix fails with UrlNotAvailable and nothing is written. Otherwise the user's or the generated suffix is inserted once, with no retry. Any integrity failure gives UrlNotAvailable with the table unchanged. Success adds exactly that record, makes the suffix resolve to the target and returns `APP_HOST:APP_PORT/suffix`. Sequential auto-generation succeeds and the auto-suffix invariant is kept |
| `Shortener.ValidateUserSuffix` | url_gravy/shortener.py:35-49 | agrees with the SQLAlchemy version on every suffix |
| `Shortener.UserValidationExamples` | test_main.py:64-69 | `!$*&^%$`, punctuation of exactly the auto width (accepted only because it does not decode) and an over-long suffix are accepted; the encoding of 789087 is rejected |
| `Shortener.GenerateSuffix` | url_gravy/shortener.py:51-62 | agrees with the SQLAlchemy version on every table |
| `Shortener.UpdateDb` | url_gravy/shortener.py:64-76 | reports False exactly when the suffix is already stored, with the table unchanged. It reports True after a stored record, and also after a non-duplicate integrity failure that stored nothing |
| `Shortener.Execute` | url_gravy/shortener.py:15-33 | a rejected user suffix fails before any write. Otherwise it fails with UrlNotAvailable exactly when the suffix is taken, and returns `BASE_URL/suffix` otherwise. After a swallowed failure, that URL resolves to nothing. The auto-suffix invariant is kept |
| `Shortener.DanglingShortUrl` | url_gravy/shortener.py:71-76 | on an empty table whose insert of `google_pls` is refused for a non-duplicate reason, execute returns `BASE_URL/google_pls` and the suffix resolves to nothing |
| `Shortener.UpdateDbChecked` | url_gravy/shortener.py:64-76 | corrected: False on a duplicate suffix, True only when the record was stored, StoreFailure otherwise. The table changes only on True |
| `Shortener.ExecuteChecked` | url_gravy/shortener.py:15-33 | corrected: every returned short URL resolves to its target. A duplicate is UrlNotAvailable and another integrity failure is StoreFailure, both leaving the table unchanged. The auto-suffix invariant is kept |
| `Crud.RedirectTable.Valid` | url_gravy/models.py:9-14 | the table invariant: keys positive, strictly increasing in storage order and below the next key to assign, and suffixes pairwise distinct; every stored id lies between 1 and the next key |
| `Crud.RedirectTable.constructor` | url_gravy/models.py:6-14 | a new table is empty and its first key is 1 |
| `Crud.RedirectTable.LastRedirect` | url_gravy/crud.py:13-23 | None exactly on an empty table; otherwise a stored record whose id is the greatest |
| `Crud.RedirectTable.CreateRedirect` | url_gravy/crud.py:25-36 | a taken suffix fails with DuplicateSuffix. A refused insert fails with OtherIntegrity. Both leave the table unchanged. Otherwise exactly one record is appended: the next key, above every earlier id, with the given suffix and target, dated today. The key counter advances, the suffix now resolves to the target and every other suffix resolves as before |
| `Crud.RedirectTable.RedirectUrl` | url_gravy/crud.py:38-51 | None exactly when no record has this suffix; otherwise the target of the record stored under exactly this suffix |
| `Crud.RedirectTable.DeleteRedirects` | url_gravy/crud.py:53-63 | with no date the table is emptied; with a date exactly the records created before it are removed and the rest keep their order. No record is added and keys are never handed out again |
| `Crud.FindBySuffix` | url_gravy/crud.py:45-48 | finds a stored record with exactly this suffix, and finds none exactly when the suffix is not stored |
| `Crud.FindAfterAppend` | url_gravy/crud.py:33-51 | after appending a record with a new suffix, a lookup of that suffix finds it, and every other lookup is unchanged |
| `Crud.KeepFrom` | url_gravy/crud.py:60-62 | keeps exactly the records created on or after the date |
| `Crud.KeepFromPreserves` | url_gravy/models.py:9-14 | deleting records keeps the key and unique-suffix constraints |
| `Crud.SuffixDeterminesRecord` | url_gravy/models.py:14 | under the unique suffix index, two records with the same suffix are the same record |

## Left out

- HTTP layer (`app.py`, `webapp.py`): routing, request validation, and the
  mapping of errors to status codes. This includes app.py turning its own
  404 into a 500, and app.py returning nothing for an auto-suffix
  `URLNotAvailableError`.
- `main.py` command-line parsing, `create_redirect_table`, `get_redirects`,
  and the SQL text of `database.py`. That SQL lives in a `queries` module
  that is not part of this model.
- Concurrency and session or connection lifecycle. Calls are sequential, and
  an insert is one atomic unique-checked step. Because of this, the
  auto-generation race appears only as the "suffix taken" outcome.
- The internals of the `short_url` library: `Codec` is a stand-in with the two
  properties the shortener relies on (round trip, fixed width for fitting ids).
- The regular expression on the MySQL error message: store failures are
  the tagged kinds `DuplicateSuffix` and `OtherIntegrity`.
- Errors that are not integrity errors, such as an unreachable database or
  a malformed ISO date. These propagate in the source and are not modelled.
- Date parsing and the clock: dates are integers, and today's date is a
  parameter.
- Integer width of the `id` column: ids are unbounded.
- Auto-increment values that some engines consume on a failed insert: a
  failed insert leaves the key counter unchanged. Keys are never reused,
  including after deleting the newest record, although some engines reuse
  them.
- Environment and config lookups, and logging.
- The two versions read the suffix width from different places: shorten.py
  reads the `AUTO_SUFFIX_LEN` environment variable, and shortener.py reads
  `config.AUTO_SUFFIX_LEN`. The model assumes both hold the same value, as
  `Settings.AutoSuffixLen`. The proofs that the two versions validate and
  generate alike rest on that assumption.

## Findings

| source | as written | input that shows it | evidently intended | confidence | as-written member | corrected member |
|---|---|---|---|---|---|---|
| url_gravy/shortener.py:71-76 | an IntegrityError whose message is not a duplicate-suffix message falls through to `return True`, so `execute` returns a short URL for which no record was stored | `execute("https://google.com", "google_pls")` on an empty table where `create_record` raises a non-duplicate IntegrityError (exhibited by `Shortener.DanglingShortUrl`) | let the non-duplicate error propagate, so that True means the record was stored | medium, not executed | `Shortener.Execute` | `Shortener.ExecuteChecked` |
