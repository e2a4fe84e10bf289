# `.env.local` loader of test-ai.js, modelled in Dafny

test-ai.js starts by loading variables from a `.env.local` file into
`process.env` before it calls the language model. It reads the file as text,
splits it on `'\n'`, and for each line:

- skips the line when it is blank after trimming, or when its first
  character (untrimmed) is `#`;
- otherwise splits it on `=` into `key` and `values`;
- when `key` is non-empty and at least one `=` was present, writes
  `process.env[key.trim()] = values.join('=').trim()`.

Lines are applied in file order, so a later line wins over an earlier one for
the same name.

The model has three modules:

- `Wrappers` (wrappers.dfy): the `Option` type a parsed line is returned in.
- `JsString` (jsstring.dfy): the JavaScript built-ins the loader calls,
  `trim` (ECMAScript white space and line terminators), `startsWith`, `split`
  on one character and `join`, plus `IndexOf`, the separator search that
  `split` performs; its first `=` is what fixes `key`. `TrimStart`, `TrimEnd`,
  `Trim`, `IndexOf` and `Split` are each a plain definition followed by a lemma
  saying what it computes, independent of how. `StartsWith` is a one-line
  definition with no lemma of its own. `Join` is described only through
  `SplitMeaning` (joining the pieces of a split gives the text back) and
  `SplitJoin` (splitting a join gives the pieces back).
- `DotEnv` (dotenv.dfy): `ParseLine`, the skip test and key/value extraction
  of one line, written as the source writes it (`split`, destructuring,
  truthiness, `join`, `trim`). `Accepted` restates the same rule without
  `split`, using the first `=` found by `IndexOf`, and `ParseLineMeaning`
  proves the two agree.
  `ApplyLines` and `LoadText` are the fold of the lines over the environment
  map. `Environment` is a class with the environment map as a field. Its
  `Load` method runs the `forEach` loop, writing into the field, and is proved
  equal to `LoadText`.

The file text is a parameter of `Load`. Reading the file is outside the model.

## Model

| member | source | states |
|---|---|---|
| JsString.TrimStartMeaning | test-ai.js:9 | the result is a suffix of the input, only white space was removed before it, and it does not start with white space |
| JsString.TrimEndMeaning | test-ai.js:12 | the result is a prefix of the input, only white space was removed after it, and it does not end with white space |
| JsString.TrimMeaning | test-ai.js:9 | `trim` returns a slice `s[a..b]` with only white space outside it and none at its ends; it is empty exactly when the line is all white space (the truthiness test of `line.trim()`) |
| JsString.TrimSkipsTrailing | test-ai.js:12 | white space after the text does not change the trimmed result |
| JsString.TrimSkipsLeading | test-ai.js:12 | white space before the text does not change the trimmed result |
| JsString.IndexOfMeaning | test-ai.js:10 | the separator search inside `split` finds the first position of the character, and none exactly when it does not occur; for `=` this is where `key` ends |
| JsString.Split | test-ai.js:10 | `split` always yields at least one piece (so `key` always exists) |
| JsString.SplitMeaning | test-ai.js:8-10 | no piece contains the separator, and joining the pieces back with it gives the original text |
| JsString.SplitSingle | test-ai.js:10-11 | `values` is empty (one piece only) exactly when the line has no `=` |
| JsString.SplitAtFirst | test-ai.js:10-12 | `key` is the text before the first `=`, and `values.join('=')` is the text after it, with every later `=` kept |
| JsString.SplitJoin | test-ai.js:8 | splitting the join of separator-free pieces gives those pieces back |
| DotEnv.ParseLineMeaning | test-ai.js:9-12 | a line is acted on iff it is not all white space, does not start with `#`, and has an `=` that is not its first character; then the name is the trimmed text before the first `=` and the value the trimmed text after it |
| DotEnv.BlankLineSkipped | test-ai.js:9 | an empty or white-space-only line assigns nothing |
| DotEnv.CommentLineSkipped | test-ai.js:9 | a line whose first character is `#` assigns nothing |
| DotEnv.NoEqualsSkipped | test-ai.js:10-11 | a line with no `=` assigns nothing |
| DotEnv.LeadingEqualsSkipped | test-ai.js:10-11 | a line whose first character is `=` assigns nothing, since the key is empty |
| DotEnv.KeyValueLine | test-ai.js:10-12 | `key=value` with a non-empty key having no `=` and not starting with `#` assigns `trim(key)` the value `trim(value)` |
| DotEnv.EqualsKeptInValue | test-ai.js:10-12 | `key=a=b` assigns `trim(key)` the value `trim("a=b")`: the later `=` stays in the value |
| DotEnv.EmptyValueAccepted | test-ai.js:10-12 | `key=` is accepted and sets `trim(key)` to the empty string |
| DotEnv.IndentedHashNotComment | test-ai.js:9-12 | an indented `#` line is not a comment: it assigns a name that starts with `#` |
| DotEnv.BlankKeyWritesEmptyName | test-ai.js:10-12 | when only white space comes before the first `=`, the untrimmed key is non-empty, so the variable with the empty name is set |
| DotEnv.CarriageReturnIgnored | test-ai.js:8-12 | a trailing `'\r'` (a CRLF file split on `'\n'`) changes neither whether a line is acted on nor what it assigns |
| DotEnv.AcceptedWithCarriageReturn | test-ai.js:9-11 | a trailing `'\r'` moves neither the skip verdict nor the first `=` |
| DotEnv.AssignAllNames | test-ai.js:12 | applying a sequence of assignments adds exactly the names they write to the environment |
| DotEnv.AssignAllUntouched | test-ai.js:12 | a name that no assignment writes keeps its value, or stays absent |
| DotEnv.AssignAllLast | test-ai.js:8-12 | the last assignment to a name decides its value |
| DotEnv.ApplyLinesNames | test-ai.js:8-15 | after loading, the names present are the old names plus the names some line writes |
| DotEnv.UntouchedKept | test-ai.js:12 | a variable that no line assigns keeps its old value, and stays absent when it was absent |
| DotEnv.LastWriteWins | test-ai.js:8-15 | a variable ends with the value of the last line that assigns it, whatever came before |
| DotEnv.LaterAssignmentWins | test-ai.js:8-12 | of two lines assigning the same name, the second line's value is what remains |
| DotEnv.ExampleEqualsInValue | test-ai.js:10-12 | the line `A=b=c` sets `A` to `b=c` |
| DotEnv.ExampleEmptyValue | test-ai.js:10-12 | the line `KEY=` sets `KEY` to the empty string |
| DotEnv.ExampleIndentedHash | test-ai.js:9-12 | the line `  #X=1` is not skipped as a comment and sets `#X` to `1` |
| DotEnv.ExampleBlankKey | test-ai.js:10-12 | the line `  =v` sets the variable with the empty name to `v` |
| DotEnv.ExampleLaterWins | test-ai.js:8-12 | loading the text `A=1`, newline, `A=2` leaves `A` set to `2` |
| DotEnv.Environment.Load | test-ai.js:8-15 | running the loop over the lines of the text leaves the environment equal to `LoadText` of the old environment and the text |

## Left out

- `readFileSync('.env.local', 'utf8')` and the `try`/`catch` around it
  (test-ai.js:6-7, 16-18): file I/O and its console message. The file text is a
  parameter of `Load`. When the file cannot be read, the source changes
  nothing, and the model never calls `Load`.
- `answerMyQuestion` and `main` (test-ai.js:20-41): a call into the OpenAI SDK
  and console output.
- Node's `process.env` write is modelled as a map update. Node's own handling is
  not modelled: names the operating system
  refuses (such as the empty name that `BlankKeyWritesEmptyName` shows can be
  written), and names that ignore case on Windows.
- JavaScript strings are UTF-16 code units; the model uses Unicode scalar
  values. Every separator and white-space character involved is a single code
  unit, so `split` and `trim` behave the same on both.
- The streaming chat pipeline of the application is not part of this model:
  the server-sent-events decoder, the message-stream reducer and the tool-call
  dispatcher. Their source is not among the files modelled.
- The API routes, pages and configuration files (app/, test-env.js,
  next.config.ts, utils/pdf-worker.ts) are not part of this model. They are
  SDK calls, HTTP responses, UI and configuration, with no logic of their own.
