# publish.py in Dafny

A model of a small blog-publishing script. It is run as
`publish.py <draft> ...`. For each argument it does three things:

1. It keeps only the file name: the text after the last '/'.
2. It builds the command line
   `mv _drafts/<name> _posts/<YYYY>-<MM>-<DD>-<name>`, with the date zero-padded.
3. It passes that line to `cmd`. `cmd` prints the line, cuts it on single
   spaces and runs the pieces as the argument vector of `mv`.

The model is pure string logic. It has five modules:

- `Text` — Python's `str.split(sep)` for a one-character separator, and its
  inverse `sep.join`.
- `Paths` — the basename `path.split('/')[-1]`.
- `Decimal` — `str(n)`, zero padding to a width (`{n:04}`, `{n:02}`), and the
  reading of digits back into a number.
- `Dates` — the date prefix `YYYY-MM-DD` and a parser that reads it back.
- `Publisher` — the command line, the list of command lines for the
  arguments, `cmd` as a record of what it echoes and runs, and the main block
  as a method with a loop.

The date is a parameter of the main block (`Run`); the script reads the
clock. The command builders (`MoveCommand`, `Publish`) take the already
formatted prefix as text. `Run` links the two through `Dates.DatePrefix`.

Line 14 strips the directory before line 16 uses the same name in both
paths; `SameNameBothEnds`, `PublishTokens` and `PublishExample` state that the
directory is dropped from both paths.

## Model

| member | source | states |
|---|---|---|
| Text.Split | publish.py:11 | `s.split(sep)` has one more piece than `s` has separators, and no piece contains the separator |
| Text.JoinSplit | publish.py:11 | joining the pieces of a split with the separator gives back the original string, so splitting loses nothing |
| Text.SplitJoin | publish.py:11 | splitting a join of one or more separator-free pieces gives back exactly those pieces |
| Text.LastPiece | publish.py:14 | the last piece of a split is separator-free and ends the string; it is either the whole string or preceded by a separator |
| Paths.Basename | publish.py:14 | `p.split('/')[-1]` exists for every path, the empty one included; it has no '/', is a suffix of the path, and is the whole path or follows a '/' |
| Paths.FileNameUnique | publish.py:14 | any string that is the longest '/'-free suffix of a path is the basename, so the suffix description defines it |
| Paths.BasenameWithoutSlash | publish.py:14 | a path without '/' is its own basename |
| Paths.BasenameTrailingSlash | publish.py:14 | a path ending in '/' has the empty basename |
| Paths.BasenameIdempotent | publish.py:14 | taking the basename of a basename changes nothing |
| Paths.BasenameUnderDirectory | publish.py:14 | `dir/name` has basename `name` for any directory text, whenever `name` has no '/' |
| Decimal.Show | publish.py:16 | `str(n)` is a non-empty digit string with no leading zero (unless it is "0") that reads back as `n` |
| Decimal.PadNat | publish.py:16 | `{n:0w}` has length max(w, number of digits of n), is all digits, and reads back as `n` |
| Decimal.PadNatLayout | publish.py:16 | the padded text is zeros followed by `str(n)` |
| Decimal.LeadingZeros | publish.py:16 | zeros in front of a digit string do not change the number it denotes |
| Decimal.ShowLength | publish.py:16 | `str(n)` has at most `k` digits exactly when `n < 10^k` |
| Decimal.PadNatExactWidth | publish.py:16 | a number below `10^w` padded to width `w` is exactly `w` characters long |
| Dates.DatePrefix | publish.py:16 | `{year:04}-{month:02}-{day:02}` is made of digits and '-' only, with exactly two '-' |
| Dates.DatePrefixRoundTrip | publish.py:16 | splitting the prefix on '-' and reading the three fields gives back the date, for every date |
| Dates.DatePrefixInjective | publish.py:16 | two different dates never give the same prefix |
| Dates.DatePrefixShape | publish.py:16 | for a date within datetime's ranges the prefix is 10 characters, '-' at indices 4 and 7 and digits everywhere else |
| Dates.PadOneDigit | publish.py:16 | a one-digit month or day renders as '0' followed by its digit |
| Dates.ExampleDatePrefix | publish.py:16 | 5 March 2024 renders as `2024-03-05` |
| Publisher.MoveCommand | publish.py:16 | the command line has two spaces of its own, two more for each space in the name (it appears twice) and one for each space in the stamp |
| Publisher.CommandTokens | publish.py:11-16 | for a name and a stamp without spaces, `cmd` runs exactly the tokens `mv`, `_drafts/<name>`, `_posts/<stamp>-<name>` |
| Publisher.TokenCount | publish.py:11-16 | a name with `k` spaces yields `3 + 2k` tokens when the line is cut on spaces, because the name appears twice |
| Publisher.SpacesCorruptTokens | publish.py:11-16 | `mv` gets more than its three tokens if and only if the name has a space |
| Publisher.SameNameBothEnds | publish.py:16 | a '/'-free name is the basename of the source path; the destination's basename is the stamp, '-' and the same name |
| Publisher.Publish | publish.py:14-16 | one command line per argument, in order, each built from that argument's basename (none for no arguments) |
| Publisher.PublishTokens | publish.py:11-16 | each argument whose basename has no space gives the tokens `mv`, `_drafts/<basename>` and `_posts/<stamp>-<basename>`, with the directory dropped from both paths |
| Publisher.PublishExample | publish.py:14-16 | the arguments `a.md` and `dir/b.md` move `_drafts/a.md` and `_drafts/b.md` |
| Publisher.Cmd | publish.py:9-11 | `cmd(c)` echoes `c` and runs a non-empty token list whose tokens have no space and whose space-join is `c` |
| Publisher.Arguments | publish.py:14 | `sys.argv[1:]` is everything after the program name, and nothing when `argv` is empty |
| Publisher.CallEach | publish.py:15-16 | the loop calls `cmd` once per name, in order, with that name's move command |
| Publisher.Run | publish.py:13-16 | the main block makes one `cmd` call per argument after the program name, each with the command line `Publish` gives for that argument; an argument whose basename has no space runs `mv` on its draft and its dated post |

## Left out

- Printing (line 10) and `subprocess.call` (line 11) are I/O. `Cmd` returns
  the line it would echo and the argument vector it would run, as an
  `Invocation` record. The exit status of `mv` is ignored by the script and
  is not modelled.
- The effects of `mv` on the file system (a missing draft, an existing post)
  are outside the script and are not modelled.
- `datetime.now()` is read three times on line 16, once per field, and line
  16 runs again for every argument. A run across midnight could mix the
  fields of two days within one command, or give two commands of the same
  run different dates. The model takes one `Date` as a parameter and applies
  it to every command, so it does not model either.
- The docstring says the script pushes to GitHub. No code does this, and the
  model has no such step.
- Publisher.MoveCommand and Publisher.Publish take the formatted date prefix
  as a text parameter rather than a date. `Run` supplies `Dates.DatePrefix`
  of its date.
- Dates.DatePrefixShape: `ValidDate` bounds the day by 31 for every month. It
  does not check month lengths, which the shape of the prefix does not
  depend on.
- Strings are sequences of characters. Python's code points, and their
  encoding in the argument vector the operating system receives, are not
  modelled.
