# CSV-backed user/task and character/quote stores, in Dafny

This project models the record-store logic of two small HTTP services that keep
their data in CSV files.

* The **user/task service** (`main.py`) keeps a users store of
  (username, password) rows and a tasks store of (task, deadline, user) rows.
  `create_user` scans the users for the exact username and appends a row only
  when none has it. `user_login` looks for a row whose username and password
  both equal the submitted ones once surrounding whitespace is stripped.
  `create_task` appends unconditionally. `get_tasks` lists the tasks whose user
  field equals the query exactly, in file order.
* The **character/quote service** (`test.py`) keeps a characters store of
  (name, description) records and a quotes store of (text, author) records.
  `read_csv` yields no records for a missing file. `get_characters` returns all
  records, or 404 when there are none. `get_character` returns the first
  record whose lowered name equals the lowered query. `create_character` and
  `create_quote` append one record, or answer 500 when the file cannot be
  opened. `get_quote` returns the text and author of one record chosen at
  random. `get_quote_by_author` returns the texts of the records whose lowered
  author equals the lowered query, echoing the query as given.

Layout:

* `text.dfy` (module `Text`): ASCII models of `str.lower()` and `str.strip()`,
  with facts about them (idempotence, padding does not matter, strip is
  determined by its two defining properties).
* `seqs.dfy` (module `Seqs`): order-preserving `Filter` and first-match
  `FindFirst`, with how both behave when a row is appended.
* `user_tasks.dfy` (module `UserTasks`): the user/task service. The class
  `UserTaskService` holds both stores as `seq` fields; `CreateUser` (a loop
  with an early return, as in the source) and `CreateTask` change them. The
  read-only handlers `UserLogin` and `GetTasks` are functions of the current
  rows (`service.users`, `service.tasks`).
* `character_quotes.dfy` (module `CharacterQuotes`): the character/quote
  service. A store file is `Missing` or `Present(records)`. The class
  `CharacterQuoteService` holds both files; `CreateCharacter` and
  `CreateQuote` change them. The read-only handlers are functions of the
  current file. Replies are `Ok(payload)` or `HttpError(status, detail)` with
  the source's status codes and messages.

What the caller's environment decides is a parameter. Whether opening a file
for appending succeeds, raises `PermissionError`, or raises something else is
the `OpenResult` argument of `CreateCharacter` and `CreateQuote`. The index `random.choice`
draws is the `pick` argument of `GetQuote`.

Two behaviours of the source are stated as lemmas:

* `create_user` compares usernames exactly, but `user_login` compares them
  stripped. So an account `" alice"` can be created next to `"alice"`, and its
  password then logs in as `"alice"` (`UserTasks.TrimmedNameSlipsPastUniqueness`).
* Appending to a missing character or quote file creates the file without a
  header line. `csv.DictReader` then reads that first line as the header, so
  the record that was reported as added is never listed
  (`CharacterQuotes.CreateOnMissingFileIsNotListed`).

`create_character` catches only `PermissionError`; any other failure escapes
the handler and the framework answers a plain 500 (modelled as
`HttpError(500, "Internal Server Error")`). `create_quote` catches
`PermissionError` and, separately, every other exception, whose text its 500
reply echoes.

## Model

| member | source | states |
|---|---|---|
| `Text.Lower` | test.py:66 | lowering keeps the length and lowers each character, changing only 'A'..'Z' |
| `Text.LowerIdempotent` | test.py:66 | lowering an already lowered string changes nothing |
| `Text.Strip` | main.py:73 | the result has no whitespace at either end and is a slice of the input with only whitespace cut away on each side |
| `Text.StripUnique` | main.py:73 | for whitespace + trimmed core + whitespace, strip returns exactly the core |
| `Text.StripIgnoresPadding` | main.py:73 | whitespace added around a string does not change its stripped form |
| `Text.StripIdempotent` | main.py:73 | stripping twice is stripping once |
| `Seqs.Filter` | main.py:102 | the result holds only selected elements of the input and every selected element of the input |
| `Seqs.FilterConcat` | main.py:102 | filtering a concatenation is the concatenation of the filtered parts, so input order is kept |
| `Seqs.FilterSnoc` | test.py:121 | appending an element extends the filtered list by it exactly when it is selected |
| `Seqs.FindFirst` | test.py:65-67 | the index returned is the first matching one; none is returned exactly when nothing matches |
| `Seqs.FindFirstSnoc` | test.py:65-67 | appending never changes an earlier match; the new element is found only when nothing before it matched |
| `UserTasks.ScanSkipsHeader` | main.py:48-51 | after the header line is consumed, the scan visits exactly the user lines in order, and the header is seen only if some user line equals it |
| `UserTasks.CreateUserOutcome` | main.py:47-62 | "User already exists" exactly when some row has the username, and then the store is unchanged; otherwise the store grows by one row [username, password] at the end with all earlier rows kept |
| `UserTasks.UserTaskService.CreateUser` | main.py:43-62 | the loop's answer and the new users store are those of CreateUserOutcome; the tasks store is unchanged |
| `UserTasks.CreateUserKeepsUsernamesDistinct` | main.py:48-59 | if the stored usernames are pairwise distinct before create_user, they still are after it |
| `UserTasks.UsersNamed` | main.py:51-52 | the rows stored under a username are non-empty exactly when the username exists |
| `UserTasks.AtMostOneNamed` | main.py:48-59 | with distinct usernames, at most one row carries a given name |
| `UserTasks.CreateUserTwice` | main.py:48-59 | a second create_user with the same name answers "User already exists" and stores nothing; the name then has one row unless it already had some |
| `UserTasks.CreateUserTwiceLeavesOneRow` | main.py:48-59 | on a store with distinct usernames, two creations of a name leave exactly one row for it |
| `UserTasks.UserLogin` | main.py:64-78 | "Logged in" exactly when some row's stripped username and stripped password equal the stripped inputs; a function, so the store is never changed |
| `UserTasks.LoginIgnoresPadding` | main.py:73 | whitespace around the submitted username or password does not change the login answer |
| `UserTasks.CreatedUserCanLogIn` | main.py:57-75 | a user just created by create_user can log in with the same credentials |
| `UserTasks.WrongPasswordRefused` | main.py:68-78 | with one stored user, a password that differs after stripping gets "Invalid username or password" |
| `UserTasks.TrimmedNameSlipsPastUniqueness` | main.py:52-73 | " alice" can be created beside "alice", and its password then logs in as "alice" |
| `UserTasks.GetTasks` | main.py:93-104 | exactly the task rows whose user field equals the query, and an empty list for an empty store |
| `UserTasks.GetTasksConcat` | main.py:102 | the answer for a concatenation of stores is the two answers in order, so store order is kept |
| `UserTasks.CreateTaskThenGetTasks` | main.py:83-102 | after create_task, the owner's list gains the new task at its end and every other user's list is unchanged |
| `UserTasks.UserTaskService.CreateTask` | main.py:81-90 | exactly one row (task, deadline, user) is appended at the end with no check on the user, earlier rows are kept, the answer is "Task created", and the users store is unchanged |
| `CharacterQuotes.ReadCsv` | test.py:27-36 | a missing file yields no records; an existing one yields its records |
| `CharacterQuotes.AppendRow` | test.py:75-77 | appending to an existing file adds the row after the last record and keeps the earlier ones; appending to a missing file leaves no readable record |
| `CharacterQuotes.GetCharacters` | test.py:53-58 | 404 "No characters found" exactly when the store is empty, otherwise all records in store order |
| `CharacterQuotes.GetCharacter` | test.py:62-68 | the first record whose lowered name equals the lowered query; 404 "Character not found" exactly when no record matches |
| `CharacterQuotes.GetCharacterIgnoresCase` | test.py:66 | two queries equal after lowering get the same answer |
| `CharacterQuotes.YodaCaseInsensitive` | test.py:66 | "Yoda" and "yoda" get the same answer |
| `CharacterQuotes.CreateCharacterThenGetCharacter` | test.py:64-77 | after appending a character, an earlier match still wins, and otherwise the new record is found exactly when its name matches |
| `CharacterQuotes.CreateOnMissingFileIsNotListed` | test.py:75-79 | a character appended to a missing file is neither listed nor found |
| `CharacterQuotes.GetQuote` | test.py:103-110 | 404 "No quotes available" exactly when the store is empty; otherwise the text and author of some stored record |
| `CharacterQuotes.GetQuoteReachesEveryQuote` | test.py:109 | every stored quote is the answer for some draw |
| `CharacterQuotes.QuotesBy` | test.py:121-126 | every listed text belongs to a matching record, every matching record's text is listed, and the list is empty exactly when nothing matches |
| `CharacterQuotes.QuotesBySnoc` | test.py:121 | appending a quote adds its text at the end for every query its author matches and changes no other list |
| `CharacterQuotes.GetQuoteByAuthor` | test.py:114-126 | 404 "No quotes available" on an empty store, 404 "No quotes found for author: " + query when nothing matches, otherwise the query as given with the matching texts |
| `CharacterQuotes.GetQuoteByAuthorIgnoresCase` | test.py:121 | queries equal after lowering find the same texts |
| `CharacterQuotes.CreateQuoteThenGetQuoteByAuthor` | test.py:89-126 | after a quote is appended, asking for its author lists the earlier matching texts followed by the new one |
| `CharacterQuotes.SingleMatchingQuote` | test.py:121-126 | with exactly one matching record, the reply lists exactly its text |
| `CharacterQuotes.CharacterQuoteService.CreateCharacter` | test.py:72-82 | when the file opens, one record is appended and the success message names the character; PermissionError gives 500 with its message; any other failure gives a plain 500; failures change nothing |
| `CharacterQuotes.CharacterQuoteService.CreateQuote` | test.py:86-99 | when the file opens, one record is appended and the message names text and author; PermissionError and other failures give their own 500 replies; failures change nothing |

## Left out

- FastAPI routing, request parsing into pydantic models, the CORS middleware and HTTP status plumbing beyond `Ok`/`HttpError(status, detail)`: framework glue.
- File paths, `os.makedirs` and the start-up header initialisation (`initialize_csv` and the pandas header writes): environment setup. The stores' starting state is a constructor argument.
- A users or tasks file removed after start-up, on which `open` or `pd.read_csv` raises and the handler fails: the user/task stores always exist in the model. A tasks file with no header line at all, on which `pd.read_csv` raises, is likewise not modelled.
- `UserTasks.UserTaskService.CreateUser`, `UserTasks.UserTaskService.CreateTask` and the read-only handlers: failures to open an existing users, tasks, characters or quotes file for reading, or an existing users or tasks file for writing (`PermissionError` on a read-only file, a lock held by another program), are not modelled. In the source such a handler answers 500 and changes nothing; in the model every read succeeds, and `CreateUser`/`CreateTask` always write their row.
- `UserTasks.UserTaskService` and `CharacterQuotes.CsvFile`: a store file that exists but holds no header line (a zero-byte users, characters or quotes file, which start-up leaves alone because it only writes headers to files that do not exist) is not a state of the model. In the source, the first row appended to such a file becomes its header: `create_user` would then accept the same username twice and `user_login` would refuse the first user, and `create_character`/`create_quote` would report a record added that is never listed. The model's stores always carry their header, and `CreateUserKeepsUsernamesDistinct`, `CreateUserTwice` and `CreatedUserCanLogIn` hold only for such stores.
- `UserTasks.UserTaskService.CreateUser`: the source appends to the users file in the platform's default encoding (no `encoding=` on the append), which on Windows is an ANSI code page such as cp1252. A username or password holding a character that code page cannot encode (for example `"Łukasz"` or an emoji) makes `writerow` raise `UnicodeEncodeError`; nothing is written and the framework answers 500. The model has no such failure: it answers `UserCreated` and stores the row. `CreateUserOutcome`, `CreateUserTwice`, `CreateUserTwiceLeavesOneRow` and `CreatedUserCanLogIn` hold only for credentials the platform encoding can represent.
- `UserTasks.CreatedUserCanLogIn`: credentials are modelled as decoded characters. The source reads and appends the users file with the platform's default encoding in `create_user` but reads it as UTF-8 in `user_login`; where the default is not UTF-8 (for example cp1252 on Windows), a non-ASCII username or password written by `create_user` makes `user_login` fail with a decoding error. The model does not capture this encoding mismatch.
- CSV quoting and escaping by `csv`/`DictReader`/`DictWriter`: rows are already-parsed typed records. A `csv.reader` line with fewer than two fields, on which `row[0]` or `row[1]` raises `IndexError`, cannot occur in the model.
- pandas `read_csv`/`to_csv` type inference: numeric-looking, boolean-looking (a column of only `True`/`False`), NA-like (`NA`, `N/A`, `null`, `None`, `nan`, `NaN`) or empty fields are converted (to numbers, booleans or NaN), which can change `df['user'] == name` comparisons (`get_tasks("None")` finds nothing) and the rewritten file (a task named `NA` comes back as an empty field after the next `create_task`). The model keeps every field a string and treats the concat-and-rewrite of `create_task` as an append.
- `Text.Lower`: models `str.lower()` on ASCII letters only; non-ASCII case mappings are not modelled.
- `Text.Strip`: models `str.strip()` for ASCII whitespace only; non-ASCII whitespace such as U+00A0 or U+0085 is not stripped.
- `CharacterQuotes.GetQuote`: the uniform distribution of `random.choice` is not modelled; the draw is an arbitrary `pick`.
- `CharacterQuotes.AppendRow`: once an append has re-created a missing file, that file's header is the first appended row, so later lookups by "name", "text" or "author" would raise `KeyError`. The model reads the later rows positionally instead.
- The exception text echoed by `create_quote` is the `reason` carried by `OtherFailure`; how Python renders an exception as a string is not modelled.
- Partial writes from exceptions raised in the middle of `writerow`, and races between concurrent requests on the same file: the model is sequential.
- `print` debugging output.
