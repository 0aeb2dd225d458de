# PersonaRise (TalentMatch AI) core: score extraction and the account/history store

This project models the two pieces of logic in the Streamlit script `app.py` that
are not UI or calls to outside services:

- **Score extractor** (`extract_match_percentage`): runs the regular expression
  `(\d{1,3})%` over text produced by the generative model, reads the captured
  digits as an integer and clamps it to at most 100; the result is absent when
  the pattern occurs nowhere. `ScoreExtractor` models the regex engine as a
  greedy run of at most three digits (`DigitRun`), backtracking to a `%`
  (`Backtrack`) and a left-to-right scan over start positions (`Search`). These
  are proved against an independent description of a match, `MatchAt(text, i, j)`
  (digits `text[i..j]`, one to three of them, then `%` at `j`), and against
  `Leftmost`, meaning that no match starts further left. For example, `"1234%"`
  matches at index 1 and gives 100.
- **Store** (`init_db`, `add_user`, `check_user`, `save_history`, `get_history`):
  `Persistence.Store` is a class with the `users` table as a
  `map<string, string>` from username (the primary key) to password digest, and
  the `history` table as a `seq<Row>` that only ever grows. The password digest
  (SHA-256 as a hex string) is the store's `digest` function. It is fixed when
  the store is created, and the model assumes nothing about it beyond
  determinism. `History` defines the rows, the `str(score)` conversion and the
  per-user query `HistoryFor`. `Decimal` defines `int(...)` on digit strings and
  `str(...)` on integers.

Choices made in the model:

- `get_history`'s query has no `ORDER BY`, so SQLite leaves the row order
  undefined. The model assumes insertion order, which is what SQLite returns in
  practice for a plain table scan.
- `save_history` receives the extractor's result unchanged (app.py:220, 229).
  When no percentage is found, the stored score is therefore `str(None)`, which is
  `"None"`. The sentinel `"N/A"` is stored only by the features that pass that
  literal (app.py:249, 268, 277).
- The digest is not assumed injective. So a wrong password is rejected only
  when its digest differs from the stored one, and `CheckUser` states exactly
  that.

## Model

| member | source | states |
|---|---|---|
| ScoreExtractor.ExtractMatchPercentage | app.py:80-84 | the result is absent exactly when no index starts one to three digits followed immediately by `%`; a present result lies in 0..100 |
| ScoreExtractor.Search | app.py:81 | the scan returns a match at or after `from` with no match starting between `from` and it, or reports that no match starts at `from` or later |
| ScoreExtractor.MatchEnd | app.py:81 | at a fixed start, the greedy `\d{1,3}` with backtracking finds a match exactly when one exists |
| ScoreExtractor.Backtrack | app.py:81 | after a greedy run of digits, retrying with fewer digits finds `%` or proves that no shorter prefix of the run is followed by `%` |
| ScoreExtractor.DigitRun | app.py:81 | the greedy `\d{1,3}` consumes only digits, at most three, and stops early only at a non-digit or the end of the text |
| ScoreExtractor.Clamp | app.py:83 | `min(v, 100)`: values up to 100 are unchanged and larger values become 100 |
| ScoreExtractor.MatchEndUnique | app.py:81 | a match start has at most one end, because `%` is not a digit |
| ScoreExtractor.RawValueAtMost999 | app.py:81-83 | the captured digits never exceed 999 before clamping |
| ScoreExtractor.LeftmostMatchDecides | app.py:81-83 | the leftmost match determines the result: its value when at most 100, otherwise 100 |
| ScoreExtractor.ResultComesFromLeftmost | app.py:81-83 | every present result is the clamped value of the leftmost match |
| ScoreExtractor.FirstMatchWins | app.py:81 | a later percentage with a different value is never the result when an earlier match is in range |
| ScoreExtractor.NoDigitNoScore | app.py:81-84 | text without digits gives no score |
| ScoreExtractor.NoPercentNoScore | app.py:81-84 | text without `%` gives no score |
| ScoreExtractor.DigitFreePrefixIgnored | app.py:81 | prose without digits before the rest of the text does not change the score |
| ScoreExamples.ZeroKept | app.py:80-84 | `"0% match, try again"` gives 0, with no lower clamp |
| ScoreExamples.EightyTwoKept | app.py:80-84 | `"Match Score: 82%"` gives 82 |
| ScoreExamples.LeadingZerosDropped | app.py:80-84 | `"007%"` gives 7 |
| ScoreExamples.OverHundredClamped | app.py:80-84 | `"This exceeds expectations at 150% alignment"` gives 100 |
| ScoreExamples.FirstPercentageWins | app.py:80-84 | `"Skills: 60%. Overall: 91%."` gives 60 |
| ScoreExamples.FourDigitsMatchFromSecond | app.py:80-84 | `"1234%"` has its leftmost match `"234%"` at index 1 (none at index 0) and gives 100 instead of no score |
| ScoreExamples.NoPercentageNoScore | app.py:80-84 | `"Great candidate, well aligned"` gives no score |
| Decimal.Value | app.py:83 | `int(...)` on the captured digits: base-10 value, leading zeros allowed; `k` digits give a value below `10^k` |
| Decimal.FromNat | app.py:55 | `str(n)` on a natural: nonempty digits, no leading zero unless `n` is 0, and reading it back with `int(...)` gives `n` |
| Decimal.FromInt | app.py:55 | `str(n)` on an integer: canonical digits that read back as `n` when `n >= 0`, and `-` followed by digits that read back as `-n` otherwise |
| History.ToStr | app.py:55 | `str(score)`: `"None"` for `None`, the text unchanged for a string, and the canonical decimal spelling (sign included) for an integer |
| History.ScoreOf | app.py:209-229 | the extractor's result is passed on unchanged as the score: an integer for `Some(v)`, `None` otherwise, never a text score |
| History.HistoryFor | app.py:62-65 | the per-user query; with `HistoryForMembers`, `HistoryForConcat` and `HistoryForEmpty` it returns exactly that user's rows as `(feature, score, details)`, in table order, and nothing for a user without rows |
| Decimal.FromNatInjective | app.py:55 | distinct naturals have distinct `str(...)` spellings |
| History.IntScoresStoredDistinctly | app.py:55 | distinct integer scores are stored as distinct strings, negative ones included |
| History.StoredScoreText | app.py:51-55 | the score stored for an analysis is `"None"` when no percentage was found, and otherwise `str(v)` of the 0..100 score `v`: digits with no leading zero that read back as `v` |
| History.HistoryForConcat | app.py:62-65 | the per-user query distributes over concatenation of the table, so insertion order is kept |
| History.HistoryForAppend | app.py:54-56 | appending a row adds its entry last for its own user and nothing for any other user |
| History.HistoryForMembers | app.py:62-65 | an entry is returned exactly when some row of that user projects to it |
| History.HistoryForEmpty | app.py:62-65 | the result is empty exactly when no row has that username, which is not an error |
| Persistence.Store.constructor | app.py:20-28 | both tables start empty |
| Persistence.Store.AddUser | app.py:30-40 | a new username is stored with the password's digest and the result is true; a taken username gives false and leaves `users` unchanged; `history` is untouched either way |
| Persistence.Store.CheckUser | app.py:42-49 | true exactly when the username is registered with the digest of this password; nothing changes |
| Persistence.Store.SaveHistory | app.py:51-57 | exactly one row `(username, feature, str(score), details)` is appended at the end; `users` is untouched |
| Persistence.Store.GetHistory | app.py:59-65 | read-only; returns the per-user query over the current table |
| Persistence.SignUpThenLogIn | app.py:161-175 | a successful sign-up followed by a login with the same password succeeds |
| Persistence.SaveThenView | app.py:51-65 | after a save, the user's history is the previous history followed by the new entry |

## Left out

- SQLite connections, cursors, commits and closes (app.py:21-28, 31, 36, 39, 43, 48, 52, 56-57, 60, 64) are I/O. The connection left open when `add_user` hits an `IntegrityError` (app.py:37-38) changes no table contents. A storage medium that is unavailable is a fatal error, and the model does not represent it.
- SHA-256 and `str.encode()` (app.py:33, 45) are library calls. The model keeps only a deterministic `digest` function. It does not model one-wayness or freedom from collisions, so "the raw password never appears in storage" is stated only as `Valid()`: every stored value is some password's digest.
- Python's `\d` also matches non-ASCII decimal digits, and `int()` accepts them. The model covers the ASCII digits '0'..'9' only.
- PDF text extraction (app.py:67-72) and PDF rendering (app.py:86-92) are thin wrappers over external libraries.
- The Gemini calls and their prompt strings (app.py:15, 74-78, 264-266, 273-275) go to a network service.
- The Streamlit UI and its session state are not modelled: login and logout flags, feature dispatch and rendering (app.py:147-289). This includes the display quirk where a score of 0 is shown as absent (app.py:212, 228). `SignUpThenLogIn` and `SaveThenView` model only the order of store calls that the UI makes.
- Persistence.Store.constructor: models only the first `init_db`, on a fresh database file. `CREATE TABLE IF NOT EXISTS` (app.py:23-26) runs on every run of the script (app.py:150); on an existing file it is a no-op that keeps every row, and those later calls are not modelled.
- Concurrent Streamlit sessions sharing one `users.db` are modelled as a sequence of calls on one `Store`: each operation is a single SQL statement with no read-modify-write step, and a "database is locked" failure is the unavailable-storage case left out above.
- The static `TEMPLATES` text (app.py:94-144) and the environment configuration loaded at startup (app.py:11-17).
- History.HistoryFor: its own contract says only that the result is no longer than the table. The meaning of the query is stated by the `HistoryFor*` lemmas.
