# Music library API — a verified Dafny model

The repository is a small Flask/SQLAlchemy web API (`musica_api`) that keeps
users, songs and a "favorite" relationship between them, plus a module of
text and number helpers (`utils.py`). This project models both in Dafny and
proves what they promise.

- **Helpers** (`utils.dfy`, module `Utils`; `strings.dfy`, module `Strings`):
  `validar_correo` (an anchored regular expression), `formatear_duracion`
  (seconds to `MM:SS`), `generar_slug` (a chain of four rewrites and a strip),
  and `validar_año` (a closed year interval). They are pure total functions on
  strings and integers. The current year, which the source reads from the
  clock, is a parameter.
- **Tables** (`models.dfy`, module `Models`): the `Usuario`, `Cancion` and
  `Favorito` rows as datatypes. The schema constraints are predicates: unique
  e-mail, unique (user, song) pair, and foreign keys that point at live rows.
  The two delete cascades are explicit functions on the favorites table.
- **Handlers** (`resources.dfy`, module `Resources`): a class `MusicStore`
  holds one map per table, from id to row, and one next-id counter per table.
  The mutating handlers are methods. Each one is atomic: it either fails with
  `NotFound(table)` or `Conflict(kind)` and changes nothing, or it returns
  `Ok` and its postcondition states the whole new state. The object invariant
  `Valid()` holds the schema constraints, and every handler preserves it. The
  song search and the user-favorites listing are functions that only read the
  store. The queries have no ORDER BY, so the order of their results is the
  database's; the model reads tables in ascending id order.
- `options.dfy` holds the `Option` type used for absent JSON keys, NULL
  columns and missing query arguments.

The handlers never call `validar_correo` or `validar_año`, so the store
accepts any e-mail and any year. The path-based favorite endpoint is a POST
and a DELETE by pair, not a toggle; its POST makes the same checks as the
body form.

The client methods rebuild the unit tests' fixture (`Fixture`) and restate
their checks as assertions, each proved from the handlers' contracts alone:
the third user gets id 3 (`CreateUserScenario`), a search by genre "Rock"
finds the one song "Canción Test 1" (`SearchScenario`), and user 1's
favorites list that song (`FavoritesScenario`). Some assertions go beyond
the unit tests: registering the same e-mail twice gives a conflict
(`CreateUserScenario`); marking a marked pair gives a conflict, unmarking it
succeeds and it can then be marked again (`FavoritesScenario`); and
`UpdateUserScenario` checks that re-sending a user's own e-mail succeeds
while another user's e-mail is refused.

## Model

| member | source | states |
|---|---|---|
| Strings.ToLowerChar | Downloads/lpa2-taller3-main/lpa2-taller3-main/utils.py:43 | Lower-casing maps each capital A–Z to its own lower-case letter, leaves every other character alone, and never yields a capital |
| Strings.ToLower | Downloads/lpa2-taller3-main/lpa2-taller3-main/utils.py:43 | Lower-casing works character by character, keeps the length, leaves no capital, and returns a string without capitals unchanged |
| Strings.ToLowerCharAgrees | Downloads/lpa2-taller3-main/lpa2-taller3-main/utils.py:43 | Two characters lower-case to the same character exactly when they are equal up to ASCII case |
| Strings.ToLowerAgrees | Downloads/lpa2-taller3-main/lpa2-taller3-main/utils.py:43 | Two strings lower-case to the same string exactly when they are equal up to ASCII case, position by position |
| Strings.Contains | musica_api/resources.py:212 | `Contains(s, p)` is true exactly when `p` occurs in `s` at some index (the `%term%` pattern) |
| Utils.MatchesEmailPattern | Downloads/lpa2-taller3-main/lpa2-taller3-main/utils.py:15 | The anchored pattern as a predicate: the text before the first `@` and the text after it, split at its last `.`, are non-empty and over the right character classes (characterised by `EmailPatternCharacterised`) |
| Utils.ValidEmail | Downloads/lpa2-taller3-main/lpa2-taller3-main/utils.py:15-16 | `validar_correo`: the pattern matches the whole string, or the whole string but one final newline, as `re.match` with `$` does |
| Utils.EmailPatternCharacterised | Downloads/lpa2-taller3-main/lpa2-taller3-main/utils.py:15-16 | The matcher accepts a string iff it is L + "@" + D + "." + W, with L and D non-empty over `[\w.-]` and W non-empty over `\w` |
| Utils.ValidEmailCharacterised | Downloads/lpa2-taller3-main/lpa2-taller3-main/utils.py:15-16 | On newline-free input, `validar_correo` is true iff the string has that L@D.W shape |
| Utils.ValidEmailHasOneAt | Downloads/lpa2-taller3-main/lpa2-taller3-main/utils.py:15 | Every accepted string contains exactly one `@`, so none or two or more is rejected |
| Utils.ValidEmailAcceptsTrailingNewline | Downloads/lpa2-taller3-main/lpa2-taller3-main/utils.py:15-16 | As written, "a@b.c\n" is accepted, although it is not of the L@D.W shape |
| Utils.ZeroPad2 | Downloads/lpa2-taller3-main/lpa2-taller3-main/utils.py:30 | `{n:02}`: a sign and the digits for a negative number, a leading zero below 10, the plain digits otherwise (its value is read back in `FormatDurationRoundTrip`) |
| Utils.FormatDuration | Downloads/lpa2-taller3-main/lpa2-taller3-main/utils.py:28-30 | The output is a minutes field, `:`, and two digits whose first is at most 5. For non-negative input the minutes field is all digits, is exactly two wide below 600 seconds, and otherwise has no leading zero |
| Utils.FormatDurationRoundTrip | Downloads/lpa2-taller3-main/lpa2-taller3-main/utils.py:28-30 | Reading the two fields back as numbers m and r gives 60·m + r = s, for every integer s, negative ones included |
| Utils.FormatDurationExamples | Downloads/lpa2-taller3-main/lpa2-taller3-main/utils.py:28-30 | 180 gives "03:00"; 6000 gives "100:00", so minutes are padded but not clamped; -1 gives "-1:59", as Python's floor division and sign-aware padding produce |
| Utils.HyphenateSpaces | Downloads/lpa2-taller3-main/lpa2-taller3-main/utils.py:44 | `re.sub(r'\s+', '-', s)`: each maximal whitespace run becomes one hyphen (stated by `HyphenateRun` and `HyphenateSplit`, used by `SlugJoinsWords`) |
| Utils.HyphenateAfterWord | Downloads/lpa2-taller3-main/lpa2-taller3-main/utils.py:44 | The whitespace rewrite copies a whitespace-free prefix unchanged and continues after it |
| Utils.HyphenateSplit | Downloads/lpa2-taller3-main/lpa2-taller3-main/utils.py:44 | The whitespace rewrite of x + y is the rewrite of x followed by the rewrite of y, when y does not start with whitespace |
| Utils.HyphenateRun | Downloads/lpa2-taller3-main/lpa2-taller3-main/utils.py:44 | A non-empty run of whitespace rewrites to exactly one hyphen |
| Utils.HyphenateGap | Downloads/lpa2-taller3-main/lpa2-taller3-main/utils.py:44 | A non-empty gap of whitespace and hyphens rewrites to a non-empty string of hyphens only |
| Utils.KeepSlugChars | Downloads/lpa2-taller3-main/lpa2-taller3-main/utils.py:45 | Removing every character outside `[a-z0-9-]` leaves only such characters |
| Utils.KeepSlugCharsAppend | Downloads/lpa2-taller3-main/lpa2-taller3-main/utils.py:45 | The character filter works piecewise: filter(a + b) = filter(a) + filter(b) |
| Utils.KeepSlugCharsDropsOthers | Downloads/lpa2-taller3-main/lpa2-taller3-main/utils.py:45 | The filter removes a string made only of characters outside `[a-z0-9-]` entirely; with `KeepSlugCharsOfSlugChars` and `KeepSlugCharsAppend` this pins the filter, hyphens kept |
| Utils.CollapseHyphens | Downloads/lpa2-taller3-main/lpa2-taller3-main/utils.py:46 | Collapsing hyphen runs leaves no "--", keeps the first character, empties only the empty string, and adds no character outside `[a-z0-9-]` |
| Utils.CollapseAfterWord | Downloads/lpa2-taller3-main/lpa2-taller3-main/utils.py:46 | The collapse copies a hyphen-free prefix unchanged and continues after it |
| Utils.CollapseRun | Downloads/lpa2-taller3-main/lpa2-taller3-main/utils.py:46 | A non-empty run of hyphens not followed by another hyphen becomes exactly one hyphen |
| Utils.TrimLeading | Downloads/lpa2-taller3-main/lpa2-taller3-main/utils.py:47 | Left strip yields a suffix of the input that does not start with `-` |
| Utils.TrimTrailing | Downloads/lpa2-taller3-main/lpa2-taller3-main/utils.py:47 | Right strip yields a prefix of the input that does not end with `-` |
| Utils.TrimHyphens | Downloads/lpa2-taller3-main/lpa2-taller3-main/utils.py:47 | `strip('-')` as a left strip followed by a right strip (their contracts state the result) |
| Utils.Slug | Downloads/lpa2-taller3-main/lpa2-taller3-main/utils.py:43-48 | The slug has only a–z, 0–9 and `-`, contains no "--", and neither starts nor ends with `-` |
| Utils.HyphenateWithoutSpaces | Downloads/lpa2-taller3-main/lpa2-taller3-main/utils.py:44 | The whitespace rewrite leaves a string without whitespace unchanged |
| Utils.KeepSlugCharsOfSlugChars | Downloads/lpa2-taller3-main/lpa2-taller3-main/utils.py:45 | The character filter leaves a string already over `[a-z0-9-]` unchanged |
| Utils.CollapseWithoutRuns | Downloads/lpa2-taller3-main/lpa2-taller3-main/utils.py:46 | The hyphen collapse leaves a string without "--" unchanged |
| Utils.SlugOfSlug | Downloads/lpa2-taller3-main/lpa2-taller3-main/utils.py:43-48 | Every well-formed slug is a fixed point of the pipeline |
| Utils.SlugIdempotent | Downloads/lpa2-taller3-main/lpa2-taller3-main/utils.py:43-48 | Slugging a slug changes nothing: slug(slug(t)) = slug(t) |
| Utils.HyphenateKeepsAlphanumerics | Downloads/lpa2-taller3-main/lpa2-taller3-main/utils.py:44 | The whitespace rewrite neither adds, drops nor reorders letters and digits |
| Utils.KeepSlugCharsLetters | Downloads/lpa2-taller3-main/lpa2-taller3-main/utils.py:45 | After the character filter, the non-hyphen characters are exactly the a–z and 0–9 of the input, in order |
| Utils.CollapseKeepsLetters | Downloads/lpa2-taller3-main/lpa2-taller3-main/utils.py:46 | The hyphen collapse removes hyphens only |
| Utils.TrimLeadingKeepsLetters | Downloads/lpa2-taller3-main/lpa2-taller3-main/utils.py:47 | The left strip removes hyphens only |
| Utils.TrimTrailingKeepsLetters | Downloads/lpa2-taller3-main/lpa2-taller3-main/utils.py:47 | The right strip removes hyphens only |
| Utils.SlugLetters | Downloads/lpa2-taller3-main/lpa2-taller3-main/utils.py:43-48 | Deleting the hyphens from the slug gives the lower-cased text filtered to `[a-z0-9]`, in the same order |
| Utils.SlugEmptyIff | Downloads/lpa2-taller3-main/lpa2-taller3-main/utils.py:43-48 | The slug is empty exactly when the lower-cased text has no a–z or 0–9 |
| Utils.SlugJoinsWords | Downloads/lpa2-taller3-main/lpa2-taller3-main/utils.py:43-48 | Two non-empty words over `[a-z0-9]` separated by any non-empty gap of whitespace and hyphens give the slug word + "-" + word ("rock - pop" gives "rock-pop") |
| Utils.ValidYear | Downloads/lpa2-taller3-main/lpa2-taller3-main/utils.py:59-70 | `validar_año` with the current year as a parameter: 1900 ≤ year ≤ current year |
| Utils.ValidYearWindow | Downloads/lpa2-taller3-main/lpa2-taller3-main/utils.py:59-70 | With the current year c as a parameter, 1900 and c are both accepted (when c ≥ 1900), while 1899 and c + 1 are rejected; a year accepted now stays accepted later |
| Models.EmailsUnique | musica_api/models.py:14 | No two users share a `correo` |
| Models.PairsUnique | musica_api/models.py:56-58 | No two favorites share a (user, song) pair |
| Models.ReferencesLive | musica_api/models.py:47-48 | Every favorite's `id_usuario` and `id_cancion` name a stored user and song |
| Models.Consistent | musica_api/models.py:12-58 | All three schema constraints at once |
| Models.DropUserFavorites | musica_api/models.py:18 | After a user's cascade, the favorites left are exactly those whose `id_usuario` is another user, unchanged |
| Models.DropSongFavorites | musica_api/models.py:37 | After a song's cascade, the favorites left are exactly those whose `id_cancion` is another song, unchanged |
| Models.DeleteUserKeepsConsistent | musica_api/models.py:18 | Removing a user with its cascaded favorites keeps e-mails unique, pairs unique and every favorite pointing at a live user and song |
| Models.DeleteSongKeepsConsistent | musica_api/models.py:37 | Removing a song with its cascaded favorites keeps every schema constraint |
| Resources.RowsWhere | musica_api/resources.py:209-218 | A filtered table scan returns each row passing the filter exactly once, with its record, in strictly ascending id order, and nothing else |
| Resources.ApplyUserPatch | musica_api/resources.py:90-91 | A user PUT replaces `nombre`/`correo` when given and keeps the old value when the key is absent; the registration time never changes |
| Resources.ApplySongPatch | musica_api/resources.py:168-173 | A song PUT sets every field whose key is present to the sent value (a null clears a nullable column) and keeps every field whose key is absent; the creation time never changes |
| Resources.PatchesIdempotent | musica_api/resources.py:168-173 | Applying the same PUT body twice equals applying it once, and an empty body changes nothing (users and songs) |
| Resources.SongMatches | musica_api/resources.py:211-216 | A song passes the search when every given argument matches: title and artist as case-insensitive substrings, genre by exact equality, a NULL genre never |
| Resources.IlikeIgnoresCase | musica_api/resources.py:212-214 | The title and artist filters give the same answer for texts, or terms, that are equal up to ASCII case |
| Resources.FilterSemantics | musica_api/resources.py:211-216 | An absent or empty search argument imposes nothing, and the filters combine by conjunction |
| Resources.FilterExamples | musica_api/resources.py:212-216 | "Canción Test 1" matches the title query "TEST" whatever the case, while genre "Rock" does not match the query "rock" |
| Resources.FavoriteSongs | musica_api/resources.py:307-317 | Each listed entry is a song the user has marked, with that song's title and artist; every favorite of the user is listed; no song is listed twice |
| Resources.MusicStore.Valid | musica_api/models.py:12-58 | The store invariant: the schema constraints hold and every id lies below its table's counter |
| Resources.MusicStore.constructor | Downloads/lpa2-taller3-main/lpa2-taller3-main/tests/test_api.py:26 | An empty database satisfies every constraint, with every id counter at 1 |
| Resources.MusicStore.CreateUser | musica_api/resources.py:45-64 | A registered `correo` gives Conflict and nothing changes; otherwise exactly one user is added under the fresh id with the given name and e-mail, and nothing else changes |
| Resources.MusicStore.UpdateUser | musica_api/resources.py:80-98 | A missing id gives NotFound. A `correo` that differs from the user's own and belongs to another user gives Conflict, and re-sending the user's own `correo` does not. The update succeeds exactly when the user exists and there is no such clash, and then only that user changes, by the partial update |
| Resources.MusicStore.DeleteUser | musica_api/resources.py:102-111 | A missing id gives NotFound; otherwise the user and exactly the favorites with its `id_usuario` are removed, and nothing else changes |
| Resources.MusicStore.CreateSong | musica_api/resources.py:128-147 | Exactly one song is added under the fresh id with the given fields, and nothing else changes |
| Resources.MusicStore.UpdateSong | musica_api/resources.py:163-180 | A missing id gives NotFound; otherwise only that song changes, by the partial update |
| Resources.MusicStore.DeleteSong | musica_api/resources.py:184-193 | A missing id gives NotFound; otherwise the song and exactly the favorites with its `id_cancion` are removed |
| Resources.MusicStore.Search | musica_api/resources.py:203-218 | The result is exactly the songs meeting every given filter, each once with its record; the model lists them in id order, the query itself has no ORDER BY |
| Resources.MusicStore.CreateFavorite | musica_api/resources.py:237-270 | A missing user gives NotFound(user) before the song is looked at. Then a missing song gives NotFound(song), and an existing pair gives Conflict, each with nothing changed. Otherwise exactly one favorite is added under the fresh id |
| Resources.MusicStore.GetFavorite | musica_api/resources.py:278-281 | Returns the favorite stored under the id, or NotFound when there is none |
| Resources.MusicStore.DeleteFavorite | musica_api/resources.py:285-294 | A missing id gives NotFound; otherwise exactly that favorite is removed |
| Resources.MusicStore.UserFavorites | musica_api/resources.py:302-325 | A missing user gives NotFound. Otherwise it returns the user's id and name, and one entry per favorite of the user: the song's id, title and artist, with no song twice |
| Resources.MusicStore.MarkFavorite | musica_api/resources.py:335-366 | The same checks in the same order as the body form, with the same single insertion; the answer carries no record |
| Resources.MusicStore.UnmarkFavorite | musica_api/resources.py:371-384 | With no favorite for the pair it gives NotFound and changes nothing. Otherwise it removes exactly the one favorite holding the pair, after which the pair is free |
| Resources.Fixture | Downloads/lpa2-taller3-main/lpa2-taller3-main/tests/test_api.py:35-66 | The unit tests' fixture, rebuilt here with the handlers from an empty store, yields users 1 and 2, songs 1 and 2 and favorite 1 = (user 1, song 1) |
| Resources.CreateUserScenario | Downloads/lpa2-taller3-main/lpa2-taller3-main/tests/test_api.py:86-103 | A new user gets id 3 with the sent name; registering the same e-mail again gives a conflict |
| Resources.UpdateUserScenario | musica_api/resources.py:86-91 | Updating user 1 with its own e-mail succeeds; updating it with user 2's e-mail gives a conflict |
| Resources.SearchScenario | Downloads/lpa2-taller3-main/lpa2-taller3-main/tests/test_api.py:115-121 | A search by genre "Rock" returns exactly one song, "Canción Test 1" |
| Resources.FavoritesScenario | Downloads/lpa2-taller3-main/lpa2-taller3-main/tests/test_api.py:126-132 | User 1's favorites list one song, "Canción Test 1"; marking it again gives a conflict, unmarking succeeds, and re-marking succeeds |

## Left out

- The handlers whose bodies are `pass` (ping, list users, get user, list songs, get song, list favorites) have no behaviour to model.
- The root `utils.py` is an unfinished copy of the helpers (empty pattern, `pass`, identity slug, a year read that returns a string); the implemented copy under `Downloads/` is modelled instead.
- Application assembly, configuration, the API/DB singletons and the marshalling schemas hold no logic of their own.
- HTTP status codes, JSON marshalling and error message text become the `Outcome` datatype: `NotFound(table)` for 404, `Conflict(kind)` for the 400s.
- A failure of the database itself at commit (the `except Exception` branches) is not modelled: the in-memory store cannot fail. A handler that fails is atomic, like its rollback.
- Clock reads (`datetime.utcnow` for row timestamps, `datetime.now` for the current year) are parameters.
- Missing required JSON keys raise `KeyError` in the source; here the required fields are plain parameters. A JSON `null` for a NOT NULL column (`nombre`, `correo`, `titulo`, `artista`) would fail at commit and is not modelled. A `null` for a nullable song column is modelled: it clears the column.
- `ILIKE` treats `%` and `_` in the search term as wildcards, and its case folding depends on the database. The model matches the term literally, as a substring, with ASCII case folding.
- Character classes are ASCII: Python's `\w` also accepts non-ASCII letters and digits, which the e-mail model rejects. `str.lower()` also maps U+0130 and U+212A to an ASCII `i` and `k`, which the slug would keep; the model lower-cases A–Z only. `\s` is modelled with Python's full whitespace set.
- Ids come from a counter per table, as a database sequence hands them out. SQLite without AUTOINCREMENT may instead reuse the id of the highest row after it is deleted.
- Nothing in the handlers validates e-mail format, year range or duration, so the store does not either.
- UserFavorites: the listing query has no ORDER BY, so the order of its entries is the database's and unspecified; the model lists them in favorite id order, and the contract states only which entries appear and that none repeats.
- Concurrency and isolation between requests are outside the model: handlers run one at a time.

## Findings

| source | as written | input that shows it | evidently intended | confidence | as-written member | corrected member |
|---|---|---|---|---|---|---|
| Downloads/lpa2-taller3-main/lpa2-taller3-main/utils.py:15-16 | `re.match` with a trailing `$` also accepts an address followed by one newline, because `$` matches before a final "\n" | "a@b.c\n" | accept only the address itself (`re.fullmatch`, or `\Z` in place of `$`) | medium; not executed | Utils.ValidEmailAcceptsTrailingNewline | Utils.EmailPatternCharacterised |
