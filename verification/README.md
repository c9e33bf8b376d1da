# OpenCompliance-AI backend, modelled in Dafny

OpenCompliance-AI is a compliance self-assessment tracker. It has a reference library of
security controls (NIST SP 800-53), and users record a yearly implementation statement and
score for each control. A locally hosted language model can be asked whether a saved
statement is adequate. This project models the application logic of `backend/main.py` as
pure functions over two in-memory tables:

- the reference library, a `seq<ControlReference>`;
- the assessment store, a `seq<Assessment>`.

Each operation takes the table itself in place of a storage session, and returns a new table
or an answer. The clock, the seed catalog and the language-model call are parameters.

Modules, one per component:

- `Wrappers`: `Option` and `Result`.
- `Records`: the `ControlReference`, `Assessment` and `AssessmentCreate` records, the natural
  key `(ref_id, audit_year)`, and the framework tag `"NIST"`.
- `Query`: the "filtered select, then `first()`" lookup that every exact lookup uses.
- `Assessments`: the upsert behind `POST /submit-assessment/`.
- `History`: `GET /history-all/`, all records with the newest audit year first.
- `SqlLike`: the storage engine's case-insensitive `LIKE`, and the substring reference it is
  proved against.
- `Library`: startup seeding, `GET /library/search` and `GET /library/get/{ref_id}`.
- `Advisory`: the decision logic of `GET /analyze-compliance/{ref_id}`.

Rows are identified by their position in a table. That position is also the scan order in
which `first()` and `LIMIT` pick rows.

The search is modelled with full `LIKE` semantics:

- `%` matches any run of characters and `_` matches exactly one.
- Case is folded as SQLite's `lower()` does, for ASCII letters only.
- A lemma proves that, for a query without wildcards, this is exactly case-insensitive
  substring search.

So queries are not restricted to wildcard-free ones.

Two details of the update path:

- On update, `remediation_plan` is always overwritten. A later submission that omits it
  clears the stored plan.
- On update, `category` is never overwritten, even when the submission names one.

## Model

| member | source | states |
|---|---|---|
| Query.FirstIndex | backend/main.py:72-73 | the lookup gives None exactly when no row satisfies the filter; otherwise it gives the first row that does |
| Assessments.CreateAssessment | backend/main.py:69-80 | existing key: the first record with that key gets the submitted score, statement and plan, and `now` as its timestamp; it keeps its category, framework, year and control; every other record is unchanged and the length stays the same. New key: one record is appended that carries every submitted field, framework "NIST" and timestamp `now`; the old records are the prefix |
| Assessments.UpsertKeys | backend/main.py:72-78 | after an upsert, the store holds exactly the keys it held before plus the submitted key |
| Assessments.UpsertKeepsUniqueKeys | backend/main.py:72-78 | if the store had at most one record per (ref_id, audit_year), it still does after an upsert |
| Assessments.UpsertLeavesExactlyOne | backend/main.py:72-78 | if the store had at most one record per key, exactly one record has the submitted key after an upsert |
| Assessments.UpsertIdempotent | backend/main.py:72-78 | submitting the same payload twice at the same time gives the same store as submitting it once |
| Assessments.LastWriteWins | backend/main.py:72-78 | resubmitting for an existing key does not grow the store, and the one record for that key has the later score, statement and timestamp |
| Assessments.YearsAreSeparateRecords | backend/main.py:72-78 | two submissions for one control that differ only in audit year leave two distinct records, one per year |
| History.InsertByYear | backend/main.py:85 | inserting a record into a newest-first list keeps it newest-first and adds exactly that record |
| History.GetAllHistory | backend/main.py:82-85 | the history is a permutation of the store, and its audit years never increase |
| History.HistoryYearsDetermined | backend/main.py:85 | every newest-first arrangement of the store lists the same years in the same order; only records that share a year may be ordered differently |
| History.HistoryExample | backend/main.py:85 | records from 2022, 2026 and 2024 are listed as 2026, 2024, 2022 |
| SqlLike.SurroundIsContains | backend/main.py:91-94 | for a query without wildcards, the pattern `%q%` matches a string exactly when `q` occurs in it, ignoring ASCII case |
| SqlLike.EmptyQueryMatchesAll | backend/main.py:92-93 | the pattern built from the empty query matches every string |
| SqlLike.SelfSearchMatches | backend/main.py:92-93 | every string matches the pattern built from itself, whatever wildcards it contains |
| Library.SeedReferenceLibrary | backend/main.py:43-58 | a non-empty library or a missing catalog means no inserts; otherwise the library becomes exactly the catalog rows, in order, with every field copied |
| Library.SeedIdempotent | backend/main.py:45-58 | seeding again after a seeding changes nothing |
| Library.MatchingRows | backend/main.py:91-93 | a row is selected exactly when its identifier or name matches `%q%`, and each selected row appears exactly as often as in the library |
| Library.SearchLibrary | backend/main.py:87-95 | the result is a sub-multiset of the library, of matching rows only; it has min(50, number of matching rows) rows, and it holds every matching row unless the cap of 50 was reached |
| Library.SearchIsSubstringSearch | backend/main.py:91-94 | for a query without wildcards, every row returned contains `q` in its identifier or name, ignoring case; every such row is returned unless the cap was reached |
| Library.EmptySearchSize | backend/main.py:91-94 | the empty query returns min(50, library size) rows |
| Library.GetControl | backend/main.py:98-102 | the result is NotFound exactly when no row's identifier equals `ref_id`; otherwise it is the first row whose identifier is exactly `ref_id` (a row that merely contains it does not match) |
| Library.ExactHitIsSearchHit | backend/main.py:91-102 | a control that the exact lookup finds is also returned by a search for its identifier, unless that search is already full |
| Advisory.AnalyzeCompliance | backend/main.py:104-125 | the year defaults to 2026; the service is not called (no prompt) exactly when no record has that exact control and year, and the answer is then the fixed "save first" message; otherwise the prompt quotes that record's statement, and the answer is the service's text verbatim or "AI Engine Error: Ensure Ollama is running. (msg)"; the answer is always a message, never an error |
| Advisory.PromptRoundTrip | backend/main.py:117-119 | the prompt embeds the statement verbatim: it can be read back from the prompt for the same control |
| Advisory.ErrorRoundTrip | backend/main.py:124-125 | the diagnostic embeds the whole failure message, which can be read back from it |
| Advisory.AnalysisSeesLatestSubmission | backend/main.py:72-119 | right after a submission, analysing the same control and year prompts with the statement just submitted |

## Left out

- HTTP routing, the CORS middleware and the startup hook (backend/main.py:61-67). These are
  framework wiring. The `{"status": "success"}` acknowledgement is constant and is not modelled.
- The SQLite engine, sessions and `commit`. Tables are values passed in and returned.
  Storage failures, which the source lets propagate, are not modelled.
- Auto-increment primary keys of both tables. A row is identified by its position.
- Reading the seed catalog: `os.path.exists`, CSV parsing, and the `KeyError` a missing
  required column would raise. The catalog is an `Option<seq<SeedRow>>` argument. The
  "loaded" console message is not modelled.
- The `ollama.chat` call. It is a parameter `chat` giving the outcome for a prompt: reply
  text, or the failure's message. The language model itself and the `mistral-nemo` model
  name are not modelled.
- `datetime.now`. The timestamp `now` is a parameter, so "`last_updated` strictly increases on
  resubmission" depends on the clock and is not stated.
- Request-body validation of `AssessmentCreate`, including defaulting `category` to
  "General". The model receives an already validated and defaulted submission.
- The lost-update race between concurrent submissions for one key. The code does nothing
  about it, and the model is sequential.
- Library.SearchLibrary: does not say which 50 rows are returned when more than 50 match.
  The source leaves that choice to the storage engine; the model takes them in scan order.
- History.GetAllHistory: does not fix the order of records that share an audit year. The
  source leaves it to the storage engine.
- Case folding beyond ASCII (SQLite's `lower()` without ICU folds ASCII only) and the
  `case_sensitive_like` pragma.
