# derrik `filter`: a Dafny model of the JSONL filtering engine

The `filter` command of derrik reads newline-delimited JSON (JSONL) files in
the order given, line by line. It writes to one sink (standard output, or a
newly created file) every line that parses as JSON and has at least one of
the `--where` top-level fields whose rendering contains the `--what`
keyword. Under `--operator icontains` the field's rendering is lower-cased
first. The keyword is left as it is. Kept lines are written verbatim, each
followed by a newline, and the sink is flushed once at the end.

The model has five modules:

- `Wrappers` (wrappers.dfy): `Option`.
- `Json` (json.dfy): the JSON value and `Value::get` with a string key.
  Any value that is not an object yields nothing.
- `Text` (text.dfy): `str::contains`, proved equal to a reference
  definition of "is a substring". Also the text the sink receives
  (`Join`: each line plus `\n`) and `BufRead::lines` (`Lines`), which
  splits text back into lines.
- `Filter` (filter.dfy): the functions that state what a run produces
  (`FieldMatches`, `RecordMatches`, `Keep`, `FileOutput`,
  `FileDiagnostics`, `ReadAll`, `Run`). It also holds the command's loops
  as methods proved against those functions:
  - `MatchFields`: the per-field loop, with the `matched` flag and the
    `break`.
  - `KeepLine`: parse one line, then match it.
  - `FilterLines`: the per-line loop.
  - `FilterFiles`: the per-file loop.
  - `Filter`: `Cli::filter` itself.
- `FilterProperties` (filter_properties.dfy): the lemmas about the
  functions.

The serde_json calls and `str::to_lowercase` are library code. They are the
three fields of a `Library` value passed to every operation:
`parse: string -> Option<Json>`, `render: Json -> string` and
`lower: string -> string`. `render` is total: arrays and objects are
rendered and searched like any other value, as `to_string` does in the
code. `lower` may change a string's length.

The file system is an `Env` value:

- `files` maps the paths that open to their lines. Each line is `Ok(text)`
  or `Err(message)`.
- `creatable` is the set of output paths that `File::create` accepts.
- `flushSucceeds` says whether the final flush succeeds.

A `Report` records:

- the outcome: `Done` or `Aborted` with `CreateFailed`, `OpenFailed` or
  `FlushFailed`;
- the chosen sink;
- the exact text handed to the sink;
- the read-error diagnostics (`Error reading line: ` followed by the
  message);
- how many inputs were opened;
- how many times the sink was flushed.

Two behaviours follow the code, although one might expect an abort to
discard the output written so far, and an array or object field never to
match:

- When an input fails to open, the text already written is not discarded.
  The `BufWriter` is dropped on the early `?` return, and dropping it
  writes its buffer out. So `Report.output` holds everything written so
  far, even on an abort. Only the explicit flush (line 88) is counted in
  `flushes`.
- A field whose value is an array or object is not treated as a
  non-match. It is rendered with `to_string` and searched like a scalar.

## Model

| member | source | states |
|---|---|---|
| `Filter.Filter` | src/commands/filter.rs:40-91 | the command's run equals `Run`: sink chosen once, inputs read in order, kept lines written verbatim, flush once at the end, and the early `?` returns on create/open failure |
| `Filter.FilterFiles` | src/commands/filter.rs:55-87 | the per-file loop stops at the first path that cannot be opened; the sink text is `Join` of the kept lines of the files opened before it, and the diagnostics, the number opened and the failing path match `ReadAll` |
| `Filter.FilterLines` | src/commands/filter.rs:57-86 | the per-line loop appends to the existing sink text exactly the kept lines of the file, each followed by `\n`, and adds one diagnostic per read error, continuing after each |
| `Filter.KeepLine` | src/commands/filter.rs:61-80 | a read line is written iff it parses and the record matches; a line that does not parse is never written |
| `Filter.KeptPrefixStep` | src/commands/filter.rs:57-79 | after one more line, the kept lines are those kept before it followed by that line exactly when it reads, parses and matches |
| `Filter.ReportedPrefixStep` | src/commands/filter.rs:57-85 | after one more line, the diagnostics are those before it followed by one `Error reading line: ` message exactly when that line is a read error |
| `Filter.EffectiveOperator` | src/commands/filter.rs:43 | the operator given with `--operator`, or `Contains` when none is given |
| `Json.Get` | src/commands/filter.rs:65 | the member named by the key when the value is an object holding it; nothing for a missing key or for any value that is not an object |
| `Filter.MatchFields` | src/commands/filter.rs:63-76 | `matched` iff some requested field matches; the loop stops at the first matching field, and every field before it does not match |
| `Text.Contains` | src/commands/filter.rs:71 | `hay.contains(needle)` holds iff the needle occurs at some position of the haystack (the empty needle occurs everywhere) |
| `Text.LinesOfJoin` | src/commands/filter.rs:59-78 | reading back the sink's text with the line reader gives the written lines again, when none holds a newline or ends in a carriage return |
| `Text.CarriageReturnIsLost` | src/commands/filter.rs:59 | any written line that ends in `\r` (and holds no newline) is read back without that `\r`, so the byte-exact read-back needs the condition above |
| `FilterProperties.DefaultOperatorIsContains` | src/commands/filter.rs:43 | without `--operator` the operator is `Contains` and the run is identical to one with `--operator contains` |
| `FilterProperties.MatchesIffSomeFieldContains` | src/commands/filter.rs:63-76 | a record matches iff it is an object, some requested field is present, and the keyword is a substring of that field's haystack |
| `FilterProperties.NonObjectNeverMatches` | src/commands/filter.rs:65 | `get` on a value that is not an object finds nothing, so such a record never matches |
| `FilterProperties.IcontainsKeepsKeywordCase` | src/commands/filter.rs:66-71 | under `Icontains` only the haystack is lower-cased: a keyword with a character that lower-casing never produces matches nothing |
| `FilterProperties.KeptByField` | src/commands/filter.rs:63-79 | one requested field whose haystack contains the keyword is enough for the line to be written |
| `FilterProperties.DroppedByOnlyField` | src/commands/filter.rs:63-79 | with a single requested field, a line whose field haystack lacks the keyword is not written |
| `FilterProperties.NameScenarioContains` | src/commands/filter.rs:62-79 | for `{"name":"John Doe","age":30}`, `contains John` keeps the line and `contains john` drops it |
| `FilterProperties.NameScenarioIcontains` | src/commands/filter.rs:66-71 | for the same line, `icontains john` keeps it and `icontains John` drops it, because the keyword is not lower-cased |
| `FilterProperties.SecondFieldScenario` | src/commands/filter.rs:64-76 | with fields `name description`, a record is kept for a match in `description` alone |
| `FilterProperties.FileOutputSound` | src/commands/filter.rs:59-79 | every written line was read successfully, parses, and matches; read failures and unparsable lines are never written |
| `FilterProperties.FileOutputComplete` | src/commands/filter.rs:59-79 | every line that reads successfully, parses and matches is written |
| `FilterProperties.FileOutputIsSubsequence` | src/commands/filter.rs:59-79 | the written lines are the successfully read lines with some left out, in their original order |
| `FilterProperties.FileOutputAppend` | src/commands/filter.rs:59-86 | filtering two runs of lines one after the other writes the output of the first and then that of the second |
| `FilterProperties.DiagnosticsCount` | src/commands/filter.rs:60-84 | exactly the read errors produce a diagnostic (one each, with the `Error reading line: ` prefix); unparsable lines produce none |
| `FilterProperties.FileOutputIdempotent` | src/commands/filter.rs:62-78 | filtering the written lines again with the same rule writes them all again |
| `FilterProperties.ReadAllInOrder` | src/commands/filter.rs:55-87 | reading stops at the first path that fails to open; every earlier path opened; what is written equals filtering the opened files' lines as one stream, file after file |
| `FilterProperties.RunOutcome` | src/commands/filter.rs:46-90 | create failure aborts before any input with nothing written; open failure aborts at that path with no flush; otherwise all inputs are read and the sink is flushed exactly once; `Done` iff the sink was created, all inputs opened and the flush succeeded, whatever the lines hold |
| `FilterProperties.RunOutputInOrder` | src/commands/filter.rs:55-88 | the sink text is `Join` of the kept lines of the opened files in file order, then line order; they form an ordered subsequence of the read lines, each parsing and matching |
| `FilterProperties.RerunIsFixedPoint` | src/commands/filter.rs:55-88 | running the command on its own output, read back as one file to standard output with the same fields, operator and keyword, writes the same text |
| `FilterProperties.KeptLinesAreClean` | src/commands/filter.rs:59-78 | kept lines hold no newline or trailing carriage return when the input lines hold none |
| `FilterProperties.RunOnOneFile` | src/commands/filter.rs:55-78 | a run on one input that opens, writing to standard output, writes that file's kept lines |

## Left out

- Command-line parsing by clap (src/commands/filter.rs:7-37) is not
  modelled. The model takes the resulting paths, fields, operator, keyword
  and output choice as given. It does not require the input and field lists
  to be non-empty, or the keyword to be non-empty: with no fields nothing
  matches, and the empty keyword matches any present field.
- serde_json's parser, `Value::to_string` (including number formatting)
  and Unicode `to_lowercase` are parameters (`Library`). Their own
  behaviour is library code and is not modelled.
- The errors `writeln!` can return (line 78) are not modelled: writes to
  the sink never fail in the model. Creating the sink, opening an input and
  the final flush can fail.
- The byte-level reading of files is not modelled: each file is given as
  its sequence of line results, so UTF-8 decoding and OS error kinds are
  abstract. Lines never hold a newline, as `BufRead::lines` guarantees.
- `BufWriter` buffering is not modelled. The report holds the text handed
  to the writer, not when it reaches the device. The model does not capture
  early delivery when the buffer fills, or loss on forced termination.
- An output path that is also one of the inputs is not modelled. The
  model treats the sink and the inputs as distinct, although `File::create`
  truncates the file before it is read.
- Filter.FilterLines: each input file is a finite sequence of line
  results. The command's endless loop on a read error that repeats forever
  is not represented. For example, when an input path is a directory every
  `lines()` item is an error, printed at lines 82-84, and the flush at line
  88 is never reached. `FilterProperties.RunOutcome`'s "all inputs are read
  and the sink is flushed once" holds only for finite inputs.
- FilterProperties.RerunIsFixedPoint: the byte-exact fixed point is proved
  only for inputs whose lines do not end in a carriage return.
  `BufRead::lines` strips one `\r` before each newline (`Text.CarriageReturnIsLost`).
  Line-level idempotence (`FilterProperties.FileOutputIdempotent`) holds
  unconditionally.
- src/commands/read.rs (print a file), src/commands/cli.rs (a greeting),
  src/commands/test.rs and src/macros.rs (verbosity-gated logging) and
  src/main.rs (process entry and wiring) are not part of this model. They
  hold no filtering logic.
