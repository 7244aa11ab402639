# College FAQ chatbot: the FAQ store and its lookup

This project models the two functions in `backend/app.py` that the chatbot's
answers depend on.

- `init_db` creates the SQLite table `faqs` if it is absent, then inserts 15
  sample question/answer/category triples.
- `get_response` looks up a user's question in that table. It matches
  case-insensitively with `LIKE`, takes the first row found, and falls back to
  one of two fixed replies.

Modules:

- `SqlText` (`sql_text.dfy`): ASCII `LOWER`, substring containment, and the
  SQL `LIKE` predicate as ISO/IEC 9075-2 (SQL Foundation), subclause 8.5,
  defines it, applied to already lower-cased texts. There is no `ESCAPE`
  clause, so `%` matches any run of characters and `_` matches any one
  character.
- `FaqRecords` (`faq_records.dfy`): the row type, the 15 samples with their
  literal text, and `SeedRows`, the rows one seeding run appends.
- `FaqLookup` (`faq_lookup.dfy`): `get_response` as the pure function
  `GetResponse`, plus lemmas about it.
- `FaqStore` (`faq_store.dfy`): the database file as class `FaqDatabase`. Its
  fields say whether the table exists, hold the rows in rowid order, and hold
  the AUTOINCREMENT counter. `InitDb` is `init_db`.
- `SeedChecks` (`seed_checks.dfy`): replies to concrete queries on the seeded
  table.

Assumptions:

- **Seeding is not idempotent.** `INSERT OR IGNORE` suggests the samples
  were meant to be inserted once, but no column of `faqs` is `UNIQUE`, so
  nothing is ever ignored. Each call appends 15 more rows with new ids. The
  model follows the code: `InitDb` always appends, and `InitDbTwice` shows the table growing by
  30 rows. Every reply stays the same after the second call, because the
  first match is always found at or before the first copy.
- **Row order.** The `SELECT` has no `ORDER BY`. The model assumes rowid
  order, which is the order of a full scan of a rowid table and, here, also
  insertion order.
- **Wildcards.** The query is put into the pattern `'%' + query.lower() + '%'`
  without escaping. A `%` or `_` in the query therefore acts as a wildcard.
  The model implements the `%`/`_` semantics of `LIKE`, without `ESCAPE`.
  SQLite's `LIKE` ignores ASCII case, but both the pattern and the column
  are lower-cased first, so the model's case-sensitive match on the
  lower-cased texts gives the same result. It proves that for a query without
  wildcards this is plain case-insensitive substring search on both columns.
  It also proves that, for any query, a row containing the query literally
  always matches.
- **The error reply.** `get_response` returns the "trouble accessing the
  database" text whenever the `SELECT` raises. In the model, `GetResponse`
  receives `None` in that case. `FaqDatabase.Table()` gives `None` while the
  table does not exist, which is the state before `init_db` has run.
  Unreadable database files are modelled by passing `None` directly.

## Model

| member | source | states |
|---|---|---|
| `SqlText.LowerOfUpper` | backend/app.py:68-70 | ASCII lower-casing forgets case: lower-casing the upper-cased string gives the lower-cased original |
| `SqlText.LikePercentMatchesAll` | backend/app.py:70 | the pattern `%` matches every text |
| `SqlText.LikeLiteralThenPercent` | backend/app.py:70 | a wildcard-free text followed by `%` matches exactly the texts that begin with it (both directions) |
| `SqlText.LikeSelfThenPercent` | backend/app.py:70 | any pattern followed by `%` matches every text that begins with the pattern's own characters, wildcards included |
| `SqlText.LikeLeadingPercent` | backend/app.py:70 | a leading `%` matches exactly when the rest of the pattern matches some suffix of the text (both directions) |
| `SqlText.LikeSurroundedIsContains` | backend/app.py:68-70 | for wildcard-free `lit`, `text LIKE '%lit%'` holds exactly when `text` contains `lit` as a substring |
| `SqlText.ContainsImpliesLikeSurrounded` | backend/app.py:68-70 | for any `p`, `%`/`_` included, a text containing `p` literally matches `'%p%'` |
| `FaqRecords.SamplesWellFormed` | backend/app.py:24-51 | there are 15 samples, each with non-empty question and answer and a category from Admissions, Courses, Fees, Campus, Career, Contact |
| `FaqRecords.SeedRowsShape` | backend/app.py:17-21 | one seeding run appends the 15 samples in listed order, with non-empty columns and consecutive ids just above the AUTOINCREMENT counter |
| `FaqLookup.FindFirst` | backend/app.py:67-72 | the row `fetchone` returns is the first row in table order whose lower-cased question or answer matches the pattern, and no earlier row matches; none is returned only when no row matches |
| `FaqLookup.GetResponse` | backend/app.py:61-80 | a failed SELECT gives the "trouble accessing the database" text; otherwise the reply is the first matching row's answer, or the exact not-found text when no row matches |
| `FaqLookup.ResponseIsStoredOrFixed` | backend/app.py:75-80 | every reply is a stored row's answer, the not-found text, or the database-trouble text |
| `FaqLookup.RowMatchesIffTextContains` | backend/app.py:67-70 | for a query without `%` or `_`, a row matches exactly when its lower-cased question or its lower-cased answer contains the lower-cased query |
| `FaqLookup.TextContainsImpliesRowMatches` | backend/app.py:67-70 | for any query, wildcards included, a row whose question or answer contains the query (ignoring ASCII case) matches |
| `FaqLookup.ContainedQueryFindsRow` | backend/app.py:67-76 | any query, wildcards included, that occurs in row `k`'s question or answer (ignoring ASCII case) is answered with the answer of row `k` or of an earlier row |
| `FaqLookup.ResponseBySubstring` | backend/app.py:67-77 | for a wildcard-free query, the reply is the answer of the first row whose question or answer contains the query, even if that is only in the answer and a later row's question fits better; it is the not-found text when no row contains it |
| `FaqLookup.SameLowerSameResponse` | backend/app.py:70 | two queries that are equal after lower-casing get the same reply |
| `FaqLookup.UpperCaseQuerySameResponse` | backend/app.py:68-70 | a query and its upper-cased form get the same reply |
| `FaqLookup.EmptyQueryReturnsFirstAnswer` | backend/app.py:70-77 | the empty query builds the pattern `%%`, which returns the first row's answer on a non-empty table and the not-found text on an empty one |
| `FaqLookup.UnderscoreQueryReturnsFirstAnswer` | backend/app.py:70-76 | the query `_` is a wildcard: it matches any non-empty question, so it returns the first row's answer |
| `FaqLookup.FindFirstAppend` | backend/app.py:67-72 | the first match in `front + back` is the first match in `front` if there is one, otherwise the first match in `back` shifted by `|front|` |
| `FaqLookup.AppendedCopyKeepsResponses` | backend/app.py:53-76 | appending a second copy of the same question/answer texts after the first changes no reply |
| `FaqStore.FaqDatabase.constructor` | backend/app.py:15 | a database file that does not exist yet: no `faqs` table, no rows, counter 0 |
| `FaqStore.FaqDatabase.InitDb` | backend/app.py:17-53 | creates the table if absent; keeps every existing row unchanged and appends the 15 samples in listed order; the new rows are well formed and their ids exceed every existing id; advances the counter by 15; ids stay strictly increasing |
| `FaqStore.InitDbTwice` | backend/app.py:53-76 | two calls of `init_db` leave the table present, append two copies of the samples (ids from the old counter + 1, then + 16), advance the counter by 30, and every query then gets the same reply it got after the first call |
| `SeedChecks.AdmissionRequirementsQuery` | backend/app.py:26-77 | on a freshly seeded table, "admission requirements" returns the admission-requirements answer |
| `SeedChecks.AdmissionAnyCase` | backend/app.py:26-77 | on a freshly seeded table, "ADMISSION" and "admission" get the same reply, the admission-requirements answer |
| `SeedChecks.SeedFreshDatabase` | backend/app.py:12-77 | a database file that does not exist, seeded once, holds exactly the 15 samples numbered from 1 and answers "admission requirements", "admission" and "ADMISSION" with the admission-requirements answer |

## Left out

- Flask routing, `render_template`, JSON parsing and HTTP status codes in `home` and `ask`: these are web plumbing, not lookup logic.
- The `__main__` block: server start-up and shutdown, port 8081, logging.
- Opening, committing and closing SQLite connections, and the file `college_faq.db`: the database is a record sequence held in memory.
- Which I/O failures make the `SELECT` raise: only the missing table is derived from state; every other failure is the caller passing `None` to `GetResponse`.
- FaqStore.FaqDatabase.InitDb: does not model a failure during initialisation, which is logged and raised again (backend/app.py:57-59), nor a partial insert before such a failure.
- A query that is not a string (then `query.lower()` raises and the database-trouble text is returned): in the model the query is always a string.
- SQLite's `LIKE` pattern length limit (50000 bytes by default), past which the `SELECT` raises. It belongs to the SQLite build, not to this code.
- A NUL character (U+0000) in the query: SQLite reads a LIKE pattern only up to its first NUL, so `'%' + query + '%'` with a NUL in the query acts as the part before it; the query `"\u0000"` then matches every row and returns the first answer. The model treats NUL as an ordinary character, which matches only texts that contain one.
- A query holding a lone surrogate (a JSON body such as `{"message": "\ud800"}`): the bound pattern cannot be encoded as UTF-8, so `c.execute` raises and the database-trouble text is returned whatever the table holds. A Dafny `string` holds only Unicode scalar values, so the model cannot express such a query.
- Unicode case folding: Python's `str.lower()` lowers non-ASCII characters in the query, but SQLite's `LOWER()` lowers only ASCII characters in the columns. The model lowers ASCII on both sides and leaves every other character unchanged. A query with non-ASCII capitals can therefore behave differently in the original.
- UpperCaseQuerySameResponse: states case-insensitivity for ASCII upper-casing only, for the same reason.
- Concrete checks on the seed text that need a string to be absent from many long literal texts: that a nonsense word gets the not-found text, and that each sample's full question, in any case, returns that sample's own answer (it does, since no earlier sample contains it, but proving that absence for every earlier sample is beyond what the verifier does cheaply). `ResponseBySubstring` states both facts for any table, given that absence.
