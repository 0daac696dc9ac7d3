/** The JSONL filtering engine of the `filter` command: it reads each input
    file line by line in the order given, keeps a line when it parses as JSON
    and one of the requested top-level fields renders to text containing the
    keyword, and writes every kept line verbatim to a single sink that is
    flushed once at the end.

    The functions below state what a run produces; the methods `MatchFields`
    and `Filter` follow the command's loops and are proved to produce it. */
module Filter {
  import opened Wrappers
  import opened Json
  import Text

  type Path = string

  /** The `--operator` choice. */
  datatype Operator = Contains | Icontains

  /** Library code the command calls but whose text is not modelled:
      serde_json's `from_str::<Value>`, `Value::to_string` and
      `str::to_lowercase` (which may change a string's length). */
  datatype Library = Library(
    parse: string -> Option<Json>,
    render: Json -> string,
    lower: string -> string)

  /** One item of `reader.lines()`: a decoded line without its line ending,
      or a read error with its message. */
  datatype LineResult = Ok(text: string) | Err(message: string)

  /** The command-line options after argument parsing: the input files, the
      `--where` field names, `--operator`, `--what` and `--output`. */
  datatype Cli = Cli(
    inputFiles: seq<Path>,
    fields: seq<string>,
    operator: Option<Operator>,
    what: string,
    output: Option<Path>)

  /** The outside world as the command sees it: the files that `File::open`
      can open, with their lines; the paths `File::create` succeeds on; and
      whether the final flush of the sink succeeds. */
  datatype Env = Env(
    files: map<Path, seq<LineResult>>,
    creatable: set<Path>,
    flushSucceeds: bool)

  datatype Destination = Stdout | File(path: Path)

  /** The errors that end a run: each is returned through `?`. */
  datatype Fatal = CreateFailed(path: Path) | OpenFailed(path: Path) | FlushFailed

  datatype Outcome = Done | Aborted(error: Fatal)

  /** What a run leaves behind: how it ended, the sink it chose, every byte
      handed to the sink (the buffered writer delivers these even when a
      later error ends the run, since dropping it writes out its buffer),
      the messages printed to standard error, how many input files were
      opened and how many times the sink was explicitly flushed. */
  datatype Report = Report(
    outcome: Outcome,
    sink: Option<Destination>,
    output: string,
    diagnostics: seq<string>,
    filesOpened: nat,
    flushes: nat)

  /** The matching rule of one run. */
  datatype FilterSpec = FilterSpec(fields: seq<string>, op: Operator, what: string)

  const ReadErrorPrefix := "Error reading line: "

  /** `self.operator.unwrap_or(Operator::Contains)` */
  function EffectiveOperator(op: Option<Operator>): (r: Operator)
    ensures op.Some? ==> r == op.value
    ensures op.None? ==> r == Contains
  {
    match op
    case Some(o) => o
    case None => Contains
  }

  function SpecOf(cli: Cli): FilterSpec
  {
    FilterSpec(cli.fields, EffectiveOperator(cli.operator), cli.what)
  }

  /** The text searched for a field value: its JSON rendering, lower-cased
      under `Icontains`. The keyword itself is never lower-cased. */
  function Haystack(lib: Library, op: Operator, v: Json): string
  {
    var rendered := lib.render(v);
    if op == Icontains then lib.lower(rendered) else rendered
  }

  /** One field decides a match: it is present and its haystack contains
      the keyword. */
  predicate FieldMatches(lib: Library, spec: FilterSpec, record: Json, field: string)
  {
    match Get(record, field)
    case None => false
    case Some(v) => Text.Contains(Haystack(lib, spec.op, v), spec.what)
  }

  /** A record matches when some requested field matches. */
  predicate RecordMatches(lib: Library, spec: FilterSpec, record: Json)
  {
    exists i :: 0 <= i < |spec.fields| && FieldMatches(lib, spec, record, spec.fields[i])
  }

  /** A line is kept when it parses and the value matches. */
  predicate Keep(lib: Library, spec: FilterSpec, line: string)
  {
    match lib.parse(line)
    case None => false
    case Some(v) => RecordMatches(lib, spec, v)
  }

  /** The lines of one file that are written, in file order. */
  function FileOutput(lib: Library, spec: FilterSpec, lines: seq<LineResult>): seq<string>
  {
    if lines == [] then []
    else
      (if lines[0].Ok? && Keep(lib, spec, lines[0].text) then [lines[0].text] else [])
      + FileOutput(lib, spec, lines[1..])
  }

  /** The messages printed for one file's read errors, in file order. */
  function FileDiagnostics(lines: seq<LineResult>): seq<string>
  {
    if lines == [] then []
    else
      (if lines[0].Err? then [ReadErrorPrefix + lines[0].message] else [])
      + FileDiagnostics(lines[1..])
  }

  /** Progress through the input files: the kept lines, the diagnostics, how
      many files opened, and the first path that failed to open, if any. */
  datatype Progress = Progress(
    kept: seq<string>,
    diagnostics: seq<string>,
    filesOpened: nat,
    failedAt: Option<Path>)

  /** Reading `paths` in order, stopping at the first one that cannot be
      opened. */
  function ReadAll(lib: Library, spec: FilterSpec, files: map<Path, seq<LineResult>>, paths: seq<Path>): Progress
    decreases |paths|
  {
    if paths == [] then Progress([], [], 0, None)
    else if paths[0] !in files then Progress([], [], 0, Some(paths[0]))
    else
      var lines := files[paths[0]];
      var rest := ReadAll(lib, spec, files, paths[1..]);
      Progress(
        FileOutput(lib, spec, lines) + rest.kept,
        FileDiagnostics(lines) + rest.diagnostics,
        rest.filesOpened + 1,
        rest.failedAt)
  }

  /** What one run of the command produces. */
  function Run(lib: Library, cli: Cli, env: Env): Report
  {
    if cli.output.Some? && cli.output.value !in env.creatable then
      Report(Aborted(CreateFailed(cli.output.value)), None, [], [], 0, 0)
    else
      var sink := if cli.output.None? then Stdout else File(cli.output.value);
      var p := ReadAll(lib, SpecOf(cli), env.files, cli.inputFiles);
      var text := Text.Join(p.kept);
      if p.failedAt.Some? then
        Report(Aborted(OpenFailed(p.failedAt.value)), Some(sink), text, p.diagnostics, p.filesOpened, 0)
      else
        Report(if env.flushSucceeds then Done else Aborted(FlushFailed),
               Some(sink), text, p.diagnostics, p.filesOpened, 1)
  }

  /** The per-field loop: tries the fields in order and stops at the first
      one that matches. `stoppedAt` is the index of the field it stopped on
      (the number of fields when none matched); fields after it are never
      rendered. */
  method MatchFields(lib: Library, spec: FilterSpec, record: Json)
    returns (matched: bool, ghost stoppedAt: nat)
    ensures matched <==> RecordMatches(lib, spec, record)
    ensures stoppedAt <= |spec.fields|
    ensures matched <==> stoppedAt < |spec.fields|
    ensures matched ==> FieldMatches(lib, spec, record, spec.fields[stoppedAt])
    ensures forall j :: 0 <= j < stoppedAt ==> !FieldMatches(lib, spec, record, spec.fields[j])
  {
    matched := false;
    stoppedAt := |spec.fields|;
    var i := 0;
    while i < |spec.fields|
      invariant 0 <= i <= |spec.fields|
      invariant forall j :: 0 <= j < i ==> !FieldMatches(lib, spec, record, spec.fields[j])
    {
      var fieldValue := Get(record, spec.fields[i]);
      if fieldValue.Some? {
        var fieldStr := lib.render(fieldValue.value);
        if spec.op == Icontains {
          fieldStr := lib.lower(fieldStr);
        }
        if Text.Contains(fieldStr, spec.what) {
          matched := true;
          stoppedAt := i;
          break;
        }
      }
      i := i + 1;
    }
  }

  /** One step of the per-file loop: reading the paths from `i` on either
      stops at path `i` or is the outcome of file `i` followed by the rest. */
  lemma ReadStep(lib: Library, spec: FilterSpec, files: map<Path, seq<LineResult>>, paths: seq<Path>, i: nat)
    requires i < |paths|
    ensures paths[i] !in files ==> ReadAll(lib, spec, files, paths[i..]) == Progress([], [], 0, Some(paths[i]))
    ensures paths[i] in files ==>
      var rest := ReadAll(lib, spec, files, paths[i + 1..]);
      ReadAll(lib, spec, files, paths[i..])
        == Progress(FileOutput(lib, spec, files[paths[i]]) + rest.kept,
                    FileDiagnostics(files[paths[i]]) + rest.diagnostics,
                    rest.filesOpened + 1,
                    rest.failedAt)
  {
    assert paths[i..][0] == paths[i];
    assert paths[i..][1..] == paths[i + 1..];
  }

  /** The decision for one line that was read: parse it and, when it
      parses, run the per-field loop. A line that does not parse is dropped
      without a diagnostic. */
  method KeepLine(lib: Library, spec: FilterSpec, line: string) returns (matched: bool)
    ensures matched <==> Keep(lib, spec, line)
    ensures matched ==> lib.parse(line).Some?
  {
    matched := false;
    var parsed := lib.parse(line);
    if parsed.Some? {
      ghost var stoppedAt;
      matched, stoppedAt := MatchFields(lib, spec, parsed.value);
    }
  }

  /** Regrouping a concatenation. Dafny knows this, but naming the three
      parts at the call keeps the per-file loop's proof small. */
  lemma Associative<T>(a: seq<T>, b: seq<T>, c: seq<T>)
    ensures a + (b + c) == (a + b) + c
  {
  }

  /** One more line read: the lines kept from the first `j + 1` are those
      kept from the first `j`, then line `j` if it is kept. */
  lemma {:induction false} KeptPrefixStep(lib: Library, spec: FilterSpec, lines: seq<LineResult>, j: nat)
    requires j < |lines|
    ensures FileOutput(lib, spec, lines[..j + 1])
         == FileOutput(lib, spec, lines[..j])
            + (if lines[j].Ok? && Keep(lib, spec, lines[j].text) then [lines[j].text] else [])
    decreases j
  {
    if j == 0 {
      assert lines[..1][1..] == [];
    } else {
      KeptPrefixStep(lib, spec, lines[1..], j - 1);
      assert lines[..j + 1][1..] == lines[1..][..j];
      assert lines[..j][1..] == lines[1..][..j - 1];
      Associative(if lines[0].Ok? && Keep(lib, spec, lines[0].text) then [lines[0].text] else [],
                  FileOutput(lib, spec, lines[1..][..j - 1]),
                  if lines[j].Ok? && Keep(lib, spec, lines[j].text) then [lines[j].text] else []);
    }
  }

  /** One more line read: the diagnostics for the first `j + 1` lines are
      those for the first `j`, then line `j`'s if it is a read error. */
  lemma {:induction false} ReportedPrefixStep(lines: seq<LineResult>, j: nat)
    requires j < |lines|
    ensures FileDiagnostics(lines[..j + 1])
         == FileDiagnostics(lines[..j])
            + (if lines[j].Err? then [ReadErrorPrefix + lines[j].message] else [])
    decreases j
  {
    if j == 0 {
      assert lines[..1][1..] == [];
    } else {
      ReportedPrefixStep(lines[1..], j - 1);
      assert lines[..j + 1][1..] == lines[1..][..j];
      assert lines[..j][1..] == lines[1..][..j - 1];
      Associative(if lines[0].Err? then [ReadErrorPrefix + lines[0].message] else [],
                  FileDiagnostics(lines[1..][..j - 1]),
                  if lines[j].Err? then [ReadErrorPrefix + lines[j].message] else []);
    }
  }

  /** The per-line loop over one opened file: each line that reads and is
      kept is appended to `output` with its newline; each read error adds a
      diagnostic and reading goes on with the next line. */
  method FilterLines(lib: Library, spec: FilterSpec, lines: seq<LineResult>,
                     output0: string, diagnostics0: seq<string>)
    returns (output: string, diagnostics: seq<string>)
    ensures output == output0 + Text.Join(FileOutput(lib, spec, lines))
    ensures diagnostics == diagnostics0 + FileDiagnostics(lines)
  {
    output, diagnostics := output0, diagnostics0;
    ghost var kept: seq<string> := [];
    var j := 0;
    while j < |lines|
      invariant 0 <= j <= |lines|
      invariant kept == FileOutput(lib, spec, lines[..j])
      invariant output == output0 + Text.Join(kept)
      invariant diagnostics == diagnostics0 + FileDiagnostics(lines[..j])
    {
      KeptPrefixStep(lib, spec, lines, j);
      ReportedPrefixStep(lines, j);
      match lines[j] {
        case Ok(line) =>
          var matched := KeepLine(lib, spec, line);
          if matched {
            Text.JoinSnoc(output0, kept, line);
            output := output + line + "\n";
            kept := kept + [line];
          }
        case Err(e) =>
          Associative(diagnostics0, FileDiagnostics(lines[..j]), [ReadErrorPrefix + e]);
          diagnostics := diagnostics + [ReadErrorPrefix + e];
      }
      j := j + 1;
    }
    assert lines[..j] == lines;
  }

  /** The per-file loop: open each path in order and run the per-line loop
      on it; the first path that cannot be opened ends the loop. The output
      and diagnostics are those of every file opened before it. */
  method FilterFiles(lib: Library, spec: FilterSpec, files: map<Path, seq<LineResult>>, paths: seq<Path>)
    returns (output: string, diagnostics: seq<string>, filesOpened: nat, failedAt: Option<Path>)
    ensures var p := ReadAll(lib, spec, files, paths);
      && output == Text.Join(p.kept)
      && diagnostics == p.diagnostics
      && filesOpened == p.filesOpened
      && failedAt == p.failedAt
  {
    ghost var whole := ReadAll(lib, spec, files, paths);
    output, diagnostics := [], [];
    ghost var kept: seq<string> := [];
    var i := 0;
    while i < |paths|
      invariant 0 <= i <= |paths|
      invariant output == Text.Join(kept)
      invariant var rest := ReadAll(lib, spec, files, paths[i..]);
        && whole.kept == kept + rest.kept
        && whole.diagnostics == diagnostics + rest.diagnostics
        && whole.filesOpened == i + rest.filesOpened
        && whole.failedAt == rest.failedAt
    {
      ReadStep(lib, spec, files, paths, i);
      if paths[i] !in files {
        assert whole.kept == kept && whole.diagnostics == diagnostics;
        return output, diagnostics, i, Some(paths[i]);
      }
      var lines := files[paths[i]];
      ghost var fileKept := FileOutput(lib, spec, lines);
      Text.JoinAppend(kept, fileKept);
      ghost var rest := ReadAll(lib, spec, files, paths[i + 1..]);
      output, diagnostics := FilterLines(lib, spec, lines, output, diagnostics);
      Associative(kept, fileKept, rest.kept);
      Associative(diagnostics, FileDiagnostics(lines), rest.diagnostics);
      kept := kept + fileKept;
      i := i + 1;
    }
    assert paths[i..] == [];
    assert whole.kept == kept && whole.diagnostics == diagnostics && whole.filesOpened == i;
    filesOpened, failedAt := i, None;
  }

  /** `Cli::filter`: choose the sink (standard output, or a newly created
      file), filter every input file in order into it, then flush it once. */
  method Filter(lib: Library, cli: Cli, env: Env) returns (report: Report)
    ensures report == Run(lib, cli, env)
  {
    var sink: Destination;
    if cli.output.None? {
      sink := Stdout;
    } else if cli.output.value in env.creatable {
      sink := File(cli.output.value);
    } else {
      return Report(Aborted(CreateFailed(cli.output.value)), None, [], [], 0, 0);
    }
    var output, diagnostics, filesOpened, failedAt :=
      FilterFiles(lib, SpecOf(cli), env.files, cli.inputFiles);
    if failedAt.Some? {
      return Report(Aborted(OpenFailed(failedAt.value)), Some(sink), output, diagnostics, filesOpened, 0);
    }
    var outcome := if env.flushSucceeds then Done else Aborted(FlushFailed);
    report := Report(outcome, Some(sink), output, diagnostics, filesOpened, 1);
  }
}
