# run_make command-line assembly

A model of how the `grouplib` unit-test harness builds the command line
for the external `make` tool (`run_make` in `unit_tests/basic_test.py`).
The harness takes an optional Makefile path, optional `targets`, optional
`flags` and a working directory. It produces the argument vector

    ["make"] ++ ["-f", sanitize(Makefile)]? ++ targetTokens ++ flagTokens

and runs it in `sanitize(dir)`. `targets` and `flags` may each be `None`, a
value whose type is exactly `str`, which is cut at every single `' '`
character (`str.split(' ')`), or a value whose type is exactly `list`. The
harness compares `type(value)` with `str` and `list`, so instances of
subclasses of `str` or `list`, `unicode` strings and tuples are neither
split nor accepted: they are `Other` in the model. Every token is passed
through `str.strip()`. Any other value raises
`ValueError('targets could not be determined from ' + str(value))`, or the
same message with `flags`. Targets are checked first. A Python 2 `str` is a
byte string; each character of a Dafny `string` in the model stands for one
byte.

Files:

- `wrappers.dfy`: `Option` (Python's `None` or a value) and `Result` (a
  value or the exception that would be raised).
- `pystr.dfy`: module `PyStr`, the two Python 2 string methods used.
  `SplitOnSpace` is `s.split(' ')`; it is proved to be the unique inverse
  of `JoinOnSpace` (`' '.join` of a non-empty list). `Strip` is `s.strip()`; the predicate
  `StripsTo` characterises it independently of its definition, and
  `StripUnique` proves that this characterisation determines it.
  Whitespace is what Python 2 `str.strip()` removes: space, tab, line
  feed, vertical tab, form feed and carriage return.
- `make_runner.dfy`: module `MakeRunner`. `ArgSpec` is the runtime shape
  of a `targets`/`flags` value (`Absent | Str | Lst | Other`), which
  replaces the source's `type(...)` tests. Besides that, it holds
  `Tokens` (lines 25-30 and 34-40), `BuildCommand` (lines 19-41),
  `RunMake` (also fixes the working directory) and the lemmas about them.

The path sanitiser is an opaque parameter `sanitize: string -> string`.
It expands `~` and environment variables, normalises the path and makes
it absolute, all against the process environment.

`str.split(' ')` cuts only at the single character `' '`, not at general
whitespace as `str.split()` would: `"a  b"` gives `a`, `""`, `b`, and
`"a\tb"` is one token (`AdjacentSpaces`, `NoSpaceOneToken`).

The leading `make` is always the first token, but it is not the only
`make` in general: a target or flag spelled `make` is passed through
unchanged (`MakeNotUnique`). What is proved is that the first token is
`make` and that the rest is the Makefile pair, then the targets, then the
flags.

## Model

| member | source | states |
|---|---|---|
| PyStr.SplitOnSpace | unit_tests/basic_test.py:27 | `s.split(' ')` yields one more piece than `s` has `' '` characters; no piece contains `' '`; joining the pieces with `' '` gives `s` back |
| PyStr.SplitOnSpaceUnique | unit_tests/basic_test.py:27 | any list of space-free pieces whose `' '`-join is `s` equals `SplitOnSpace(s)`, so split is the exact inverse of join |
| PyStr.Strip | unit_tests/basic_test.py:30 | `x.strip()` is never longer than `x` and neither starts nor ends with whitespace |
| PyStr.StripSpec | unit_tests/basic_test.py:30 | `x.strip()` is a contiguous slice of `x` with only whitespace cut off before and after it |
| PyStr.StripUnique | unit_tests/basic_test.py:30 | the only string that is `x` minus a whitespace prefix and suffix, with no whitespace at either end, is `Strip(x)` |
| PyStr.StripTrimmed | unit_tests/basic_test.py:30 | a token without leading or trailing whitespace is left unchanged |
| PyStr.StripPadded | unit_tests/basic_test.py:30 | `(pre + w + post).strip() == w` for whitespace-only `pre`/`post` and trimmed `w` |
| PyStr.StripLeftSuffix | unit_tests/basic_test.py:30 | the left half of strip removes a whitespace prefix and keeps the rest |
| PyStr.StripRightPrefix | unit_tests/basic_test.py:30 | the right half of strip removes a whitespace suffix and keeps the rest |
| MakeRunner.StripAll | unit_tests/basic_test.py:30 | `[x.strip() for x in items]` keeps the length and strips item k into token k |
| MakeRunner.Tokens | unit_tests/basic_test.py:25-30 | `None` gives no tokens; a string gives (number of `' '`) + 1 tokens; a list gives one stripped token per item, in order; every token is trimmed; any other shape gives exactly `ValueError(name + " could not be determined from " + repr)` and nothing else does |
| MakeRunner.BuildCommand | unit_tests/basic_test.py:19-41 | success exactly when neither `targets` nor `flags` has another shape; a bad `targets` reports the targets error whatever `flags` is, otherwise a bad `flags` reports the flags error; on success the vector starts with `make`; with a Makefile its first three tokens are `make`, `-f`, `sanitize(Makefile)` and the rest is the target tokens followed by the flag tokens; without one, everything after `make` is the target tokens followed by the flag tokens, so the second token is the first target or flag, if any |
| MakeRunner.RunMake | unit_tests/basic_test.py:17-43 | the invocation runs in `sanitize(dir)` with the `BuildCommand` vector; no invocation exists when an argument has the wrong shape |
| MakeRunner.StringArgument | unit_tests/basic_test.py:26-30 | string tokens are the stripped `' '`-pieces, as many as spaces + 1, and the unstripped pieces rejoin to the string |
| MakeRunner.WordsString | unit_tests/basic_test.py:26-30 | space-free trimmed words joined by single spaces come back as exactly those words, in order |
| MakeRunner.WordsTargets | unit_tests/basic_test.py:19-32 | with such a string as the only targets, the command is `make` followed by the words |
| MakeRunner.AdjacentSpaces | unit_tests/basic_test.py:27 | two adjacent spaces yield an empty token between the words |
| MakeRunner.NoSpaceOneToken | unit_tests/basic_test.py:27-30 | a string without `' '` (tabs and other whitespace included) is a single stripped token |
| MakeRunner.PaddedList | unit_tests/basic_test.py:28-30 | list items padded with whitespace become exactly the unpadded words |
| MakeRunner.StripAllTrimmed | unit_tests/basic_test.py:30 | already-trimmed tokens pass through the comprehension unchanged |
| MakeRunner.MakeNotUnique | unit_tests/basic_test.py:19-32 | the targets string `"make"` gives `["make", "make"]`: the leading token is fixed, not unique |

## Left out

- `sanitize` (unit_tests/basic_test.py:10-15) is a parameter. Its steps read the home directory, the environment and the current directory. Its idempotence is not claimed.
- The child process (unit_tests/basic_test.py:43-45): `Popen`, `communicate` and the returned exit code and output streams. The model stops at the `Invocation` (argument vector and working directory) that would be started.
- `create_source` (unit_tests/basic_test.py:47-51): it writes a file.
- `MakeTest.setUp` and `tearDown` (unit_tests/basic_test.py:54-65): file checks, directory creation and copies, recursive removal, and a workspace name drawn from `random.random()` hashed with MD5.
- `TestBasicOperation` and `unittest.main` (unit_tests/basic_test.py:67-81): test-framework glue that prints the result.
- `Lst` models lists of byte `str` items only. Items of other types are not modelled: those without a `.strip()` raise an unhandled `AttributeError`, and those with one (notably `unicode`, whose `strip()` also removes Unicode whitespace such as U+00A0 and U+3000, or `bytearray`) behave differently from `Strip`.
- `Other` carries the text of `str(value)` as given. The case where `str(value)` itself raises, such as a non-ASCII `unicode` value under Python 2, is not modelled.
- The default `dir='.'` of `run_make` (unit_tests/basic_test.py:17) is not a default of `RunMake`: the caller passes `"."` for it.
- Exceptions raised by `sanitize` are not modelled. For that reason the order in which `dir`, the Makefile and the arguments are processed is not observable here.
