# QCM generator service — verified model

A Dafny model of the decision logic of a small quiz (QCM) HTTP service. The
service holds a table of multiple-choice questions. It serves random quizzes
filtered by `use` and subject, and lets administrators append questions. Every
endpoint first checks an `Auth_header` of the form `username:password` against
a hard-coded table of four users and their roles.

Files:

- `wrappers.dfy`: `Option`, `Result` and `Outcome`.
- `text.dfy`: the two Python string builtins the service relies on.
  `Split` is `str.split(sep)`: `k` separators give `k + 1` pieces, and `""`
  gives `[""]`. `Strip` is `str.strip()`, using Python's `str.isspace`
  character set.
- `auth.dfy`: the user table `UserList` and `VerifyAuthorization`. The checks
  run in a fixed order: absent header, then the shape of the header, then the
  username, then the password, then the role. The user table is a parameter,
  and the service passes `UserList`, a constant whose contents
  `UserListShape` describes.
- `questions.dfy`: the `Question` row, the `NewQuestion` request body, the
  effective subject list, the row filter, the cap on quiz size
  (`PlanQuiz`), random sampling without replacement (`Sample`, a
  nondeterministic method) and their composition (`GenerateQuiz`).
- `service.dfy`: the endpoints. `CheckStatus` is `GET /status`. The class
  `QuestionStore` holds the shared table; its `GetQcm` is `GET /QCM` and its
  `AddQuestion` is `POST /Questions`. An omitted quiz length (`None`) means
  ten questions, as the endpoint's default `'10'` does. The file ends with two scenarios: three
  "SQL" rows asked for five, and an admin adding a question and then getting
  it back in a quiz.

## Model

| member | source | states |
|---|---|---|
| `Text.Split` | main.py:40 | Never returns an empty list, and no piece contains the separator. |
| `Text.JoinSplit` | main.py:40 | Joining the pieces with the separator gives back the header string. |
| `Text.SplitCount` | main.py:40-41 | The number of pieces is the number of colons plus one, so the length test accepts exactly one colon. |
| `Text.SplitWithoutSeparator` | main.py:40 | A string with no separator splits into one piece, itself. |
| `Text.SplitAfterPrefix` | main.py:40 | A separator-free prefix followed by the separator becomes the first piece. |
| `Text.SplitPair` | main.py:40-45 | `u:p`, with no colon in `u` or `p`, splits into exactly `[u, p]`. |
| `Text.SplitPairInverse` | main.py:40-45 | A header that splits into two pieces is exactly those pieces joined by one colon. |
| `Text.TrimStart` | main.py:95 | Returns the longest suffix not starting with whitespace; everything removed is whitespace. |
| `Text.TrimEnd` | main.py:95 | Returns the longest prefix not ending with whitespace; everything removed is whitespace. |
| `Text.Strip` | main.py:95 | The stripped subject is no longer than the input and neither starts nor ends with whitespace. |
| `Text.StripSlice` | main.py:95 | `strip()` returns a contiguous slice of its input, and only whitespace lies outside that slice. |
| `Text.StripIdempotent` | main.py:95 | Stripping twice gives the same result as stripping once. |
| `Auth.UserListShape` | main.py:24-29 | The table holds exactly alice, bob, clementine and admin. Every user holds "basic", only `admin` holds "admin", and no name or password contains a colon. |
| `Auth.AuthError.Status` | main.py:37-48 | The first four failures are 401 and only the role failure is 403. |
| `Auth.AuthError.Detail` | main.py:37-48 | Every failure carries a non-empty detail message. |
| `Auth.DetailInitial` | main.py:37-48 | The five messages begin with five different letters: N, A, S, M, U. |
| `Auth.DetailIdentifiesError` | main.py:37-48 | Two failures with the same detail message are the same failure, including the username named in "Specified username X does not exist" and "Unauthorized action for user X". |
| `Auth.VerifyAuthorization` | main.py:36-48 | An absent header, and only an absent header, fails with "No Authorization header". The malformed-header failure happens exactly when the header does not split into two parts. For a two-part header `u:p`, the result is `UnknownUser(u)` exactly when `u` is not a user, and "Mismatch password" exactly when `u` is a user and `p` is not its password. Success or 403 happens exactly when the header names a known user with that user's exact password. Success implies the role is held. A 403 names the authenticated user and implies the role is missing. |
| `Auth.MalformedIgnoresUsers` | main.py:40-42 | A header whose colon count is not one fails as malformed whatever the user table is, so the lookup is never reached. |
| `Auth.CorrectCredential` | main.py:43-48 | A known user whose name and password contain no colon, presenting that exact password, either passes or gets 403 (`Unauthorized`), never a 401. (With a colon in either, the header splits into more than two parts and gets 401.) |
| `Auth.VerifySucceedsIff` | main.py:36-48 | The check passes if and only if the header is `u:p`, `u` is in the table, `p` is `u`'s password (neither containing a colon) and `u` holds the required role. |
| `Auth.StatusFollowsOrder` | main.py:43-48 | A header that does not authenticate always yields 401. A 403 is only produced for the exact `user:password` header of the user it names. |
| `Auth.BuiltInUsersAreBasic` | main.py:24-29 | Every one of the four built-in users logs in with their own password and holds "basic". |
| `Auth.AliceLogsIn` | main.py:24-48 | The header `alice:wonderland` passes the "basic" check. |
| `Auth.OnlyAdminIsAdmin` | main.py:24-29 | With a correct credential, only `admin` passes the admin check; every other user gets 403 "Unauthorized action for user <name>". |
| `Questions.ToRow` | main.py:115-124 | The stored row carries every field of the request body. An optional `responseD` or `remark` sent as null is stored as "". |
| `Questions.QuizLength.Count` | main.py:76 | A quiz length is one of 5, 10 or 20. |
| `Questions.Subjects` | main.py:93 | The subject column, row by row. |
| `Questions.Unique` | main.py:93 | `unique()` holds exactly the values of the column, with no duplicates. |
| `Questions.RequestedSubjects` | main.py:95 | One subject per comma-separated item, each stripped of surrounding whitespace; the count is the number of commas plus one. |
| `Questions.SingleRequestedSubject` | main.py:95 | A request naming one subject, with no comma or surrounding whitespace, asks for exactly that subject. |
| `Questions.SubjectNotRequestable` | main.py:95 | A subject that holds a comma, or starts or ends with whitespace, is never among the subjects of a request that names it. |
| `Questions.SubjectList` | main.py:92-95 | With no `subjects`, the list holds exactly the subjects that occur in the table. |
| `Questions.Filtered` | main.py:96-99 | The filtered set is never larger than the table. |
| `Questions.FilteredMembers` | main.py:96-99 | A row is in the filtered set if and only if it is in the table and passes the mask `Matches`: its subject is in the list and, when `use` is given, its use equals `use`. |
| `Questions.FilteredAppend` | main.py:96-99 | Filtering distributes over concatenation, so kept rows stay in table order. |
| `Questions.FilteredSingle` | main.py:96-99 | A single row is kept exactly when it passes the mask. |
| `Questions.FilteredAll` | main.py:96-99 | When every row passes the mask, the filtered set is the whole table. |
| `Questions.FilteredNoDuplicates` | main.py:96-99 | Filtering a table without duplicate rows gives a set without duplicate rows. |
| `Questions.UnfilteredKeepsAll` | main.py:92-97 | With neither `subjects` nor `use`, the filtered set is the whole table. |
| `Questions.SelectionError.Status` | main.py:102-103 | An empty selection is answered with 404. |
| `Questions.SelectionError.Detail` | main.py:102-103 | The 404 message starts "No q", so it differs from every credential message. |
| `Questions.PlanQuiz` | main.py:102-106 | Fails with 404 if and only if the filtered set is empty. Otherwise the size is between 1 and `n`, at most the pool, and equals `n` or the pool size. The incomplete flag is set if and only if the size is below `n`. |
| `Questions.Sample` | main.py:109 | Returns exactly `k` rows taken from pairwise distinct positions of the pool. When `k` is the pool size, every position, and so every row, is drawn. |
| `Questions.GenerateQuiz` | main.py:91-111 | Fails if and only if nothing matches. Otherwise the quiz holds `min(n, |pool|)` rows drawn without replacement from the filtered set; the incomplete flag is set if and only if the pool is smaller than `n`; and when the pool has at most `n` rows, the quiz contains every one of them. |
| `Questions.SmallPoolQuiz` | main.py:104-109 | When fewer rows match than requested, the quiz is the whole filtered set and is flagged incomplete. |
| `Questions.DrawnHasNoDuplicates` | main.py:109 | When the filtered set has no duplicate rows, the quiz has none either. |
| `Questions.UnrequestableRowNotSelected` | main.py:92-99 | A row whose subject holds a comma, or starts or ends with whitespace, is never selected by a request that names its subject. |
| `Questions.AppendedRowIsInPool` | main.py:96-99 | A question appended to the table that matches the request's use and subjects is in the filtered set, so the request cannot fail with 404. |
| `Service.ApiError.Status` | main.py:89-103 | Errors map to 401, 403 or 404, and 404 only for an empty selection. |
| `Service.ApiError.Detail` | main.py:89-103 | Every refusal carries a non-empty detail message. |
| `Service.ApiDetailIdentifiesError` | main.py:89-103 | Two refusals of the quiz endpoint with the same detail message are the same refusal. |
| `Service.CheckStatus` | main.py:57-64 | Success returns 1. A failure carries exactly the credential check's error. |
| `Service.CheckStatusOpenToEveryUser` | main.py:24-29 | `/status` succeeds for exactly the four built-in `user:password` headers. |
| `Service.QuestionStore.constructor` | main.py:32-33 | The store starts from the loaded table. |
| `Service.QuestionStore.GetQcm` | main.py:75-111 | A failed credential check is returned unchanged. After a pass, 404 is returned if and only if nothing matches; otherwise the result is a quiz for the filtered set as `GenerateQuiz` states. An omitted quiz length means 10. |
| `Service.QuestionStore.AddQuestion` | main.py:133-152 | A caller without "admin" gets the credential error and the table is unchanged. Otherwise the table becomes the old table plus the new row at the end, and the body is echoed back. |
| `Service.AllSqlRowsKept` | main.py:92-99 | A request for subject "SQL" keeps every row of a table whose rows are all "SQL". |
| `Service.ThreeSqlRowsForFive` | main.py:89-111 | A store of three "SQL" rows, asked by alice for five "SQL" questions, returns all three rows and flags the quiz incomplete. |
| `Service.AddThenGenerate` | main.py:133-152 | After an admin adds a question, a quiz asked for with its subject and use contains it. This holds when the subject has no comma and no whitespace at either end, and fewer rows than requested matched before the add. |

## Left out

- FastAPI setup, routing, header extraction, response metadata and OpenAPI tags (main.py:9-21, 50-58, 67-79, 126-134) are framework plumbing with no logic of their own.
- Reading the table with pandas (`read_csv`, `fillna`) is not modelled. The table is an in-memory `seq<Question>` whose missing cells are already "". The pandas type inference that would turn an all-numeric column into numbers is not modelled either.
- Writing the CSV row and reloading the file (main.py:143-150) are modelled as an ideal append of `ToRow(newQuestion)` to the in-memory table. The CSV dialect's quoting is assumed to round-trip. A file that has drifted from the in-memory table, and I/O failures, are not modelled.
- Questions.Sample: the draw is a nondeterministic choice of distinct positions. The uniform distribution of `DataFrame.sample` is not modelled.
- The concurrent, unsynchronised rebinding of the shared table by simultaneous requests is not modelled. Each method runs alone on the store.
- Service.AddThenGenerate: the add-then-query round trip is promised only for subjects with no comma and no whitespace at either end. For any other subject, `Questions.UnrequestableRowNotSelected` proves that a request naming the subject never selects the row: for example, `subjects=a,b` asks for "a" and "b".
- Questions.ToRow: a stored cell is assumed to read back unchanged. Reading the file back actually turns a cell spelled like a missing value (`NA`, `null`, `None`, `nan`, `N/A`, …) into "", so a question added with use "NA" is stored with use "". This is not modelled.
- Pydantic validation (422 responses) is not modelled. Its effect is carried by the types instead: `QuizLength` has only the three accepted sizes, `Answer` has only A–D, and `NewQuestion` requires its mandatory fields.
- `Auth.VerifyAuthorization` receives the user table as an argument instead of reading the global `user_list`; the endpoints always pass `UserList`.
