# Camera capture gateway, modelled in Dafny

The service is a small Flask application on a camera-equipped board. `GET /` reports
that the service is up, the current Unix time and whether the `libcamera-jpeg` utility
was found when the service started. `/capture` (GET or POST) takes an optional
`shutter` value, checks it and the utility's availability in that order, allocates a
temporary `.jpg` file, runs

    libcamera-jpeg -o <file> --nopreview [--shutter <value>] --quality 95

with a 30-second timeout, and answers with the picture (200, `image/jpeg`), a failure
with the utility's error output (500), or a timeout (504). Its `finally` block removes
the temporary file on every path once the file exists, and ignores a failing removal.

The model has three modules:

- `Wrappers` (`wrappers.dfy`): `Option`, for Python's `None`.
- `Decimal` (`decimal.dfy`): Python's `int(text)` and `str(n)` on decimal text. The
  grammar is surrounding ASCII whitespace, an optional `+` or `-`, then one or more ASCII
  digits; leading zeros are accepted. In this model `int(str(i)) == i` is proved for
  every integer (Python itself limits both directions to 4300 digits; see "Left out").
- `App` (`app.dfy`): the responses, the status record, the shutter parsing, the
  command, the response table of `/capture` as a function (`CaptureResponse`), and a
  class `CameraServer` with the state one request touches: the availability flag fixed
  at startup, the set of paths that exist on the filesystem, and the log of commands
  handed to the external process. `CameraServer.Capture` is the request handler. It
  returns early on an invalid shutter value and on a missing utility. After that it
  allocates the file, builds the command step by step and runs it. It then maps the
  outcome to a response and cleans up.

The environment is passed in as parameters. The process outcome is an `Outcome`:
exit zero, a non-zero exit with its error text, or a timeout. Whether deleting the
temporary file fails is a `bool`. The clock reading is a `real`. The `shutil.which`
result is the constructor's `available` argument. The temporary name is chosen
nondeterministically among `.jpg` names that do not exist yet.

## Model

| member | source | states |
|---|---|---|
| `Decimal.TrimStart` | app.py:32 | the result is a suffix of the input, everything dropped is whitespace, and it does not start with whitespace |
| `Decimal.TrimEnd` | app.py:32 | the result is a prefix of the input, everything dropped is whitespace, and it does not end with whitespace |
| `Decimal.Strip` | app.py:32 | the stripped text neither starts nor ends with whitespace |
| `Decimal.StripKeepsNonSpace` | app.py:32 | stripping leaves only characters of the input and keeps every non-whitespace character |
| `Decimal.ParseSignedAlphabet` | app.py:32 | after stripping, accepted text holds a digit, and text with a character other than whitespace, a digit or a sign is rejected |
| `Decimal.ParseInt` | app.py:32 | `int(text)`: accepted text ends, once stripped, in a digit; the value is negative only after a leading `-` and never positive after one; which text is accepted and its value (see `NonCanonicalAccepted` and `MisplacedSignRejected`) are fixed by the definition of `ParseSigned` on the stripped text; `ParseShowInt` covers canonical text `str(i)`, `ParseIntIgnoresPadding` surrounding whitespace, and `ParseIntAlphabet` characters other than whitespace, digits and signs |
| `Decimal.ParseIntAlphabet` | app.py:32 | `int(text)` succeeds only on text holding a digit, and raises ValueError on any text holding a character other than whitespace, digits and signs |
| `Decimal.ShowNat` | app.py:47 | `str(n)` of a non-negative number is a non-empty run of digits with no leading zero |
| `Decimal.ShowInt` | app.py:47 | `str(i)` starts with no whitespace and ends in a digit; for `i >= 0` it is digits denoting `i`, for `i < 0` a `-` followed by digits denoting `-i` |
| `Decimal.DigitsValueShowNat` | app.py:47 | the digits `str(n)` prints denote `n` |
| `Decimal.StripUnpadded` | app.py:32 | text that neither starts nor ends with whitespace is unchanged by stripping |
| `Decimal.ParseIntUnpadded` | app.py:32 | `int()` of text without surrounding whitespace reads the sign and digits directly |
| `Decimal.NonCanonicalAccepted` | app.py:32 | `int()` accepts text other than `str(i)`: `"+5"` is 5 and `"007"` is 7 |
| `Decimal.MisplacedSignRejected` | app.py:32 | a sign that is not in front is rejected: `"5-"` and `"1+2"` raise ValueError |
| `Decimal.ParseShowInt` | app.py:32 | `int(str(i)) == i` for every integer `i` |
| `Decimal.TrimStartSkipsPadding` | app.py:32 | leading whitespace does not change the result of trimming the start |
| `Decimal.TrimEndSkipsPadding` | app.py:32 | trailing whitespace does not change the result of trimming the end |
| `Decimal.TrimStartKeepsTail` | app.py:32 | trimming the start of text followed by whitespace keeps that whitespace, unless the text is all whitespace |
| `Decimal.ParseIntIgnoresPadding` | app.py:32 | whitespace before and after the `shutter` text never changes what `int()` makes of it |
| `App.Truncate` | app.py:17 | `int()` of a float rounds toward zero: the result is within one of the input and no further from zero |
| `App.Home` | app.py:13-20 | the status record says "ok", carries the availability flag, is HTTP 200, and its timestamp is the whole second the clock reading falls in |
| `App.ParseShutter` | app.py:30-34 | an absent `shutter` gives `None`; a present one is rejected exactly when `int()` fails on it, and otherwise gives that integer |
| `App.PaddedShutterAccepted` | app.py:30-34 | the text `str(n)` of any integer, with any whitespace before and after it, is accepted as `n` |
| `App.NegativeShutterAccepted` | app.py:32 | `"-5"` is accepted as -5 |
| `App.MalformedShutterRejected` | app.py:31-34 | `"abc"`, `"1.5"` and the empty string are rejected |
| `App.Command` | app.py:44-50 | the command starts `libcamera-jpeg -o <file> --nopreview` and ends `--quality 95`; it has 8 arguments exactly when the shutter value is present and strictly positive, and 6 otherwise; then arguments 5 and 6 are `--shutter` and a text that parses back to that value |
| `App.OutcomeResponse` | app.py:52-58 | a zero exit, and only it, gives 200 with the temporary file as `image/jpeg`; a non-zero exit, and only it, gives 500 "capture failed" with the error text; a timeout, and only it, gives 504 "capture timeout" |
| `App.CaptureResponse` | app.py:30-58 | status 400 with "invalid shutter value" exactly when the shutter text is rejected; 500 exactly when it is accepted and the utility is missing ("not available") or the process exits non-zero ("capture failed" with its error text); 504 "capture timeout" exactly on a timeout; 200 with the temporary file as `image/jpeg` exactly on a zero exit |
| `App.FreshTempJpegExists` | app.py:40 | whatever files exist, there is a `.jpg` name that is none of them |
| `App.BuildCommand` | app.py:44-50 | the list built by appending step by step is the command described by `Command` |
| `App.CameraServer.constructor` | app.py:10 | the service starts with the availability flag found at startup, the given files, and no command run |
| `App.CameraServer.AllocateTemp` | app.py:40-42 | the temporary file gets a `.jpg` name no existing file had, and now exists |
| `App.CameraServer.Run` | app.py:53 | the command is handed to the process and the files are unchanged |
| `App.CameraServer.Cleanup` | app.py:59-64 | a removal is attempted exactly when the file exists; the file is gone afterwards unless that removal fails, and a failure changes nothing |
| `App.CameraServer.Shoot` | app.py:40-64 | a fresh `.jpg` file is created, exactly one command runs, `Command` of that file and the shutter value, the response is `OutcomeResponse` of the outcome, and the file no longer exists afterwards unless its removal failed |
| `App.CameraServer.Capture` | app.py:30-64 | the response is `CaptureResponse` of the request, whether or not the removal fails. On a rejected shutter or a missing utility, no file is created and no command runs. Otherwise exactly one command runs, `Command` of a fresh `.jpg` file, and that file no longer exists afterwards unless its removal failed |

## Left out

- HTTP plumbing: Flask routing, `jsonify`, `app.run` and the host and port binding. Responses are a status and a body value.
- `send_file` streaming: the success body is the path of the temporary file and its mimetype. The model does not capture that the bytes are read from the file after the `finally` block has removed it (an already opened handle survives the removal on POSIX systems).
- The external process is an `Outcome` value. The model leaves out the camera utility itself, the 30-second timer, killing the process on timeout, and decoding its error bytes with `errors="ignore"`. The error text is carried as it is.
- Exceptions other than ValueError, CalledProcessError and TimeoutExpired (for example the utility disappearing after startup) are not modelled. Flask would answer them with its own 500 page.
- Temporary file names: the operating system's choice of name is modelled as any `.jpg` name that does not exist yet. Its directory and random part are not modelled.
- Decimal.ParseInt: Python's `int()` also accepts underscores between digits, non-ASCII digits and Unicode whitespace. The model accepts only ASCII digits and the six ASCII whitespace characters. Python 3.11 and later (and the 3.7-3.10 security releases) also raise ValueError on text with more than 4300 digits. `app.py` then answers 400, but the model accepts the value. `str()` has the same limit, so `Decimal.ParseShowInt` holds in the model for every integer but in Python only up to 4300 digits.
- App.Home: the clock reading `time.time()` is a parameter.
- Concurrency: requests are modelled one at a time. The source has no locking, and nothing is stated about two requests running at once.
