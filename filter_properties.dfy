/** What the filter promises, proved about the functions of module `Filter`
    (and so, through the ensures of `Filter.Filter`, about the command's
    loops): the matching rule, error tolerance, ordering, the outcome of a
    run and idempotence. */
module FilterProperties {
  import opened Wrappers
  import opened Json
  import Text
  import opened Filter

  /** The texts of the lines that were read successfully, in order. */
  function OkLines(lines: seq<LineResult>): seq<string>
  {
    if lines == [] then []
    else (if lines[0].Ok? then [lines[0].text] else []) + OkLines(lines[1..])
  }

  /** Lines that all read successfully. */
  function AsOk(texts: seq<string>): seq<LineResult>
  {
    if texts == [] then [] else [Ok(texts[0])] + AsOk(texts[1..])
  }

  /** The lines of the files at `paths`, one file after the other. */
  function Concat(files: map<Path, seq<LineResult>>, paths: seq<Path>): seq<LineResult>
    requires forall j :: 0 <= j < |paths| ==> paths[j] in files
  {
    if paths == [] then [] else files[paths[0]] + Concat(files, paths[1..])
  }

  /** `a` is `b` with some elements left out, the rest in the same order. */
  predicate IsSubsequence<T(==)>(a: seq<T>, b: seq<T>)
    decreases |b|
  {
    if a == [] then true
    else if b == [] then false
    else (a[0] == b[0] && IsSubsequence(a[1..], b[1..])) || IsSubsequence(a, b[1..])
  }

  // ---------------------------------------------------------------------
  // Matching

  /** Without `--operator`, a run is the run with `--operator contains`. */
  lemma DefaultOperatorIsContains(lib: Library, cli: Cli, env: Env)
    requires cli.operator.None?
    ensures SpecOf(cli).op == Contains
    ensures Run(lib, cli, env) == Run(lib, cli.(operator := Some(Contains)), env)
  {
  }

  /** A record matches exactly when some requested field is present and the
      keyword is a substring of its haystack. */
  lemma MatchesIffSomeFieldContains(lib: Library, spec: FilterSpec, record: Json)
    ensures RecordMatches(lib, spec, record) <==>
      exists f :: f in spec.fields && record.Object? && f in record.members
        && Text.Occurs(spec.what, Haystack(lib, spec.op, record.members[f]))
  {
    if RecordMatches(lib, spec, record) {
      var i :| 0 <= i < |spec.fields| && FieldMatches(lib, spec, record, spec.fields[i]);
      assert spec.fields[i] in spec.fields;
    }
    if exists f :: f in spec.fields && record.Object? && f in record.members
        && Text.Occurs(spec.what, Haystack(lib, spec.op, record.members[f])) {
      var f :| f in spec.fields && record.Object? && f in record.members
        && Text.Occurs(spec.what, Haystack(lib, spec.op, record.members[f]));
      var i :| 0 <= i < |spec.fields| && spec.fields[i] == f;
      assert FieldMatches(lib, spec, record, spec.fields[i]);
    }
  }

  /** `value.get(field)` finds nothing in a value that is not an object, so
      such a record never matches. */
  lemma NonObjectNeverMatches(lib: Library, spec: FilterSpec, record: Json)
    requires !record.Object?
    ensures !RecordMatches(lib, spec, record)
  {
  }

  /** Under `Icontains` only the haystack is lower-cased: a keyword holding a
      character that lower-casing never produces (an upper-case letter, for
      the real `to_lowercase`) matches no record at all. */
  lemma IcontainsKeepsKeywordCase(lib: Library, spec: FilterSpec, record: Json, k: nat)
    requires spec.op == Icontains
    requires k < |spec.what|
    requires forall s :: spec.what[k] !in lib.lower(s)
    ensures !RecordMatches(lib, spec, record)
  {
    if RecordMatches(lib, spec, record) {
      var i :| 0 <= i < |spec.fields| && FieldMatches(lib, spec, record, spec.fields[i]);
      var v := Get(record, spec.fields[i]).value;
      var hay := Haystack(lib, spec.op, v);
      assert hay == lib.lower(lib.render(v));
      Text.OccursCharsIn(spec.what, hay, k);
      assert false;
    }
  }

  /** A line is kept as soon as one requested field of its parsed value has
      a haystack containing the keyword. */
  lemma KeptByField(lib: Library, spec: FilterSpec, line: string, i: nat, v: Json)
    requires lib.parse(line).Some? && i < |spec.fields|
    requires Get(lib.parse(line).value, spec.fields[i]) == Some(v)
    requires Text.Occurs(spec.what, Haystack(lib, spec.op, v))
    ensures Keep(lib, spec, line)
  {
    assert FieldMatches(lib, spec, lib.parse(line).value, spec.fields[i]);
  }

  /** With one requested field, a line whose field haystack lacks the
      keyword is dropped. */
  lemma DroppedByOnlyField(lib: Library, spec: FilterSpec, line: string, v: Json)
    requires lib.parse(line).Some? && |spec.fields| == 1
    requires Get(lib.parse(line).value, spec.fields[0]) == Some(v)
    requires !Text.Occurs(spec.what, Haystack(lib, spec.op, v))
    ensures !Keep(lib, spec, line)
  {
  }

  /** The worked example of a name field, case-sensitive: `John` is found
      and `john` is not. */
  lemma NameScenarioContains(lib: Library, line: string)
    requires lib.parse(line) == Some(Object(map["name" := String("John Doe"), "age" := Number("30")]))
    requires lib.render(String("John Doe")) == "\"John Doe\""
    ensures Keep(lib, FilterSpec(["name"], Contains, "John"), line)
    ensures !Keep(lib, FilterSpec(["name"], Contains, "john"), line)
  {
    var v := String("John Doe");
    assert Get(lib.parse(line).value, "name") == Some(v);
    var hay := lib.render(v);
    assert Text.Occurs("John", hay) by {
      assert "John" <= hay[1..];
    }
    assert !Text.Occurs("john", hay) by {
      assert forall i :: 0 <= i < |hay| ==> hay[i] != 'j';
      Text.AbsentCharNeverOccurs("john", hay, 0);
    }
    KeptByField(lib, FilterSpec(["name"], Contains, "John"), line, 0, v);
    DroppedByOnlyField(lib, FilterSpec(["name"], Contains, "john"), line, v);
  }

  /** The same example under `icontains`: `john` is found in the
      lower-cased rendering, and `John` is not, because the keyword is not
      lower-cased. */
  lemma NameScenarioIcontains(lib: Library, line: string)
    requires lib.parse(line) == Some(Object(map["name" := String("John Doe"), "age" := Number("30")]))
    requires lib.render(String("John Doe")) == "\"John Doe\""
    requires lib.lower("\"John Doe\"") == "\"john doe\""
    ensures Keep(lib, FilterSpec(["name"], Icontains, "john"), line)
    ensures !Keep(lib, FilterSpec(["name"], Icontains, "John"), line)
  {
    var v := String("John Doe");
    assert Get(lib.parse(line).value, "name") == Some(v);
    var hay := lib.lower(lib.render(v));
    assert Text.Occurs("john", hay) by {
      assert "john" <= hay[1..];
    }
    assert !Text.Occurs("John", hay) by {
      assert forall i :: 0 <= i < |hay| ==> hay[i] != 'J';
      Text.AbsentCharNeverOccurs("John", hay, 0);
    }
    KeptByField(lib, FilterSpec(["name"], Icontains, "john"), line, 0, v);
    DroppedByOnlyField(lib, FilterSpec(["name"], Icontains, "John"), line, v);
  }

  /** Fields are tried as alternatives: a record whose first field does not
      match is still kept when a later one does. */
  lemma SecondFieldScenario(lib: Library, line: string)
    requires lib.parse(line) == Some(Object(map["name" := String("John Doe"), "description" := String("Software Engineer")]))
    requires lib.render(String("Software Engineer")) == "\"Software Engineer\""
    ensures Keep(lib, FilterSpec(["name", "description"], Contains, "Engineer"), line)
  {
    var v := String("Software Engineer");
    assert Get(lib.parse(line).value, "description") == Some(v);
    var hay := lib.render(v);
    assert Text.Occurs("Engineer", hay) by {
      assert "Engineer" <= hay[10..];
    }
    KeptByField(lib, FilterSpec(["name", "description"], Contains, "Engineer"), line, 1, v);
  }

  // ---------------------------------------------------------------------
  // One file

  lemma {:induction false} FileOutputAppend(lib: Library, spec: FilterSpec, a: seq<LineResult>, b: seq<LineResult>)
    ensures FileOutput(lib, spec, a + b) == FileOutput(lib, spec, a) + FileOutput(lib, spec, b)
    decreases |a|
  {
    if a == [] {
      assert a + b == b;
    } else {
      assert (a + b)[0] == a[0];
      assert (a + b)[1..] == a[1..] + b;
      FileOutputAppend(lib, spec, a[1..], b);
    }
  }

  lemma {:induction false} FileDiagnosticsAppend(a: seq<LineResult>, b: seq<LineResult>)
    ensures FileDiagnostics(a + b) == FileDiagnostics(a) + FileDiagnostics(b)
    decreases |a|
  {
    if a == [] {
      assert a + b == b;
    } else {
      assert (a + b)[0] == a[0];
      assert (a + b)[1..] == a[1..] + b;
      FileDiagnosticsAppend(a[1..], b);
    }
  }

  /** Every line written was read successfully from the file, parses, and
      matches; so lines that fail to read or to parse are never written. */
  lemma {:induction false} FileOutputSound(lib: Library, spec: FilterSpec, lines: seq<LineResult>)
    ensures forall l :: l in FileOutput(lib, spec, lines) ==>
      Ok(l) in lines && Keep(lib, spec, l) && lib.parse(l).Some?
  {
    if lines != [] {
      FileOutputSound(lib, spec, lines[1..]);
      forall l | l in FileOutput(lib, spec, lines)
        ensures Ok(l) in lines && Keep(lib, spec, l) && lib.parse(l).Some?
      {
        if l !in FileOutput(lib, spec, lines[1..]) {
          assert lines[0] == Ok(l);
        } else {
          assert Ok(l) in lines[1..];
        }
      }
    }
  }

  /** Every line that reads successfully and is kept is written. */
  lemma {:induction false} FileOutputComplete(lib: Library, spec: FilterSpec, lines: seq<LineResult>, j: nat)
    requires j < |lines| && lines[j].Ok? && Keep(lib, spec, lines[j].text)
    ensures lines[j].text in FileOutput(lib, spec, lines)
  {
    if j > 0 {
      assert lines[1..][j - 1] == lines[j];
      FileOutputComplete(lib, spec, lines[1..], j - 1);
    }
  }

  /** The lines written are the successfully read lines with some left out,
      in their original order. */
  lemma {:induction false} FileOutputIsSubsequence(lib: Library, spec: FilterSpec, lines: seq<LineResult>)
    ensures IsSubsequence(FileOutput(lib, spec, lines), OkLines(lines))
  {
    if lines != [] {
      FileOutputIsSubsequence(lib, spec, lines[1..]);
      var rest, okRest := FileOutput(lib, spec, lines[1..]), OkLines(lines[1..]);
      if lines[0].Ok? {
        assert OkLines(lines) == [lines[0].text] + okRest;
        assert ([lines[0].text] + okRest)[1..] == okRest;
        if Keep(lib, spec, lines[0].text) {
          assert FileOutput(lib, spec, lines) == [lines[0].text] + rest;
          assert ([lines[0].text] + rest)[1..] == rest;
        } else {
          assert FileOutput(lib, spec, lines) == rest;
          SubsequenceOfLonger(rest, okRest, lines[0].text);
        }
      } else {
        assert FileOutput(lib, spec, lines) == rest && OkLines(lines) == okRest;
      }
    }
  }

  lemma SubsequenceOfLonger<T>(a: seq<T>, b: seq<T>, x: T)
    requires IsSubsequence(a, b)
    ensures IsSubsequence(a, [x] + b)
  {
    assert ([x] + b)[1..] == b;
  }

  /** Each read error gives one diagnostic, and nothing else gives one: a
      line that does not parse is dropped silently. */
  lemma {:induction false} DiagnosticsCount(lines: seq<LineResult>)
    ensures |FileDiagnostics(lines)| + |OkLines(lines)| == |lines|
    ensures forall d :: d in FileDiagnostics(lines) ==> ReadErrorPrefix <= d
  {
    if lines != [] {
      DiagnosticsCount(lines[1..]);
      forall d | d in FileDiagnostics(lines) ensures ReadErrorPrefix <= d {
        if d !in FileDiagnostics(lines[1..]) {
          assert d == ReadErrorPrefix + lines[0].message;
        }
      }
    }
  }

  /** Filtering what was written, with the same rule, writes it all again. */
  lemma {:induction false} FileOutputIdempotent(lib: Library, spec: FilterSpec, lines: seq<LineResult>)
    ensures FileOutput(lib, spec, AsOk(FileOutput(lib, spec, lines))) == FileOutput(lib, spec, lines)
  {
    if lines != [] {
      var rest := FileOutput(lib, spec, lines[1..]);
      FileOutputIdempotent(lib, spec, lines[1..]);
      if lines[0].Ok? && Keep(lib, spec, lines[0].text) {
        var l := lines[0].text;
        assert ([l] + rest)[1..] == rest;
        assert AsOk([l] + rest) == [Ok(l)] + AsOk(rest);
        FileOutputAppend(lib, spec, [Ok(l)], AsOk(rest));
        assert [Ok(l)][1..] == [];
      } else {
        assert FileOutput(lib, spec, lines) == rest;
      }
    }
  }

  // ---------------------------------------------------------------------
  // A whole run

  /** Reading stops at the first path that cannot be opened; the files
      before it are all read, and what they produce is what filtering their
      lines as one stream, file after file, produces. */
  lemma {:induction false} ReadAllInOrder(lib: Library, spec: FilterSpec, files: map<Path, seq<LineResult>>, paths: seq<Path>)
    ensures var p := ReadAll(lib, spec, files, paths);
      && p.filesOpened <= |paths|
      && (forall j :: 0 <= j < p.filesOpened ==> paths[j] in files)
      && (p.failedAt.None? <==> p.filesOpened == |paths|)
      && (p.failedAt.Some? ==> p.failedAt.value == paths[p.filesOpened] && paths[p.filesOpened] !in files)
      && p.kept == FileOutput(lib, spec, Concat(files, paths[..p.filesOpened]))
      && p.diagnostics == FileDiagnostics(Concat(files, paths[..p.filesOpened]))
    decreases |paths|
  {
    var p := ReadAll(lib, spec, files, paths);
    if paths == [] {
    } else if paths[0] !in files {
      assert paths[..0] == [];
    } else {
      var rest := paths[1..];
      ReadAllInOrder(lib, spec, files, rest);
      var q := ReadAll(lib, spec, files, rest);
      assert paths[..p.filesOpened] == [paths[0]] + rest[..q.filesOpened];
      assert ([paths[0]] + rest[..q.filesOpened])[1..] == rest[..q.filesOpened];
      var head := files[paths[0]];
      var tail := Concat(files, rest[..q.filesOpened]);
      assert Concat(files, paths[..p.filesOpened]) == head + tail;
      FileOutputAppend(lib, spec, head, tail);
      FileDiagnosticsAppend(head, tail);
    }
  }

  /** How a run ends. Creating the output file is tried before any input is
      opened; a failure to open an input stops the run there, without the
      final flush; otherwise every input is read and the sink is flushed
      exactly once. Read errors and unparsable lines never end a run. */
  lemma RunOutcome(lib: Library, cli: Cli, env: Env)
    ensures var r := Run(lib, cli, env);
      && (r.sink.None? <==> cli.output.Some? && cli.output.value !in env.creatable)
      && (r.sink.None? ==>
            r.outcome == Aborted(CreateFailed(cli.output.value))
            && r.filesOpened == 0 && r.output == [] && r.diagnostics == [] && r.flushes == 0)
      && (r.sink.Some? ==> r.sink.value == if cli.output.None? then Stdout else File(cli.output.value))
      && r.filesOpened <= |cli.inputFiles|
      && (forall j :: 0 <= j < r.filesOpened ==> cli.inputFiles[j] in env.files)
      && (r.outcome.Aborted? && r.outcome.error.OpenFailed? ==>
            r.filesOpened < |cli.inputFiles|
            && r.outcome.error.path == cli.inputFiles[r.filesOpened]
            && cli.inputFiles[r.filesOpened] !in env.files && r.flushes == 0)
      && (r.flushes == 1 <==> r.sink.Some? && r.filesOpened == |cli.inputFiles|)
      && (r.outcome == Done <==>
            r.sink.Some? && (forall p :: p in cli.inputFiles ==> p in env.files) && env.flushSucceeds)
  {
    var r := Run(lib, cli, env);
    var paths := cli.inputFiles;
    ReadAllInOrder(lib, SpecOf(cli), env.files, paths);
    if r.sink.Some? && !(forall p :: p in paths ==> p in env.files) {
      var p :| p in paths && p !in env.files;
      var k :| 0 <= k < |paths| && paths[k] == p;
      assert r.filesOpened != |paths|;
    }
  }

  /** The sink receives, file after file and line after line, each kept
      line followed by a newline; every such line was read successfully
      from an input that was opened, parses, and matches. */
  lemma RunOutputInOrder(lib: Library, cli: Cli, env: Env)
    requires Run(lib, cli, env).sink.Some?
    ensures var r := Run(lib, cli, env);
      && r.filesOpened <= |cli.inputFiles|
      && (forall j :: 0 <= j < r.filesOpened ==> cli.inputFiles[j] in env.files)
      && var lines := Concat(env.files, cli.inputFiles[..r.filesOpened]);
         && r.output == Text.Join(FileOutput(lib, SpecOf(cli), lines))
         && IsSubsequence(FileOutput(lib, SpecOf(cli), lines), OkLines(lines))
         && (forall l :: l in FileOutput(lib, SpecOf(cli), lines) ==>
               Ok(l) in lines && lib.parse(l).Some? && Keep(lib, SpecOf(cli), l))
  {
    var r := Run(lib, cli, env);
    ReadAllInOrder(lib, SpecOf(cli), env.files, cli.inputFiles);
    var lines := Concat(env.files, cli.inputFiles[..r.filesOpened]);
    FileOutputIsSubsequence(lib, SpecOf(cli), lines);
    FileOutputSound(lib, SpecOf(cli), lines);
  }

  /** Running the command again on its own output, read back from the sink
      with the same fields, operator and keyword, writes the same text. The
      read-back is exact when no input line ends in a carriage return (the
      line reader strips one before each newline, see
      `Text.CarriageReturnIsLost`); input lines never hold a newline. */
  lemma RerunIsFixedPoint(lib: Library, cli: Cli, env: Env, path: Path)
    requires Run(lib, cli, env).sink.Some?
    requires forall p, l :: p in env.files && Ok(l) in env.files[p] ==> '\n' !in l && !Text.EndsWithCr(l)
    ensures var r := Run(lib, cli, env);
      var again := Run(lib, cli.(inputFiles := [path], output := None),
                       env.(files := env.files[path := AsOk(Text.Lines(r.output))]));
      again.output == r.output
  {
    var r := Run(lib, cli, env);
    var spec := SpecOf(cli);
    RunOutputInOrder(lib, cli, env);
    var lines := Concat(env.files, cli.inputFiles[..r.filesOpened]);
    var kept := FileOutput(lib, spec, lines);
    KeptLinesAreClean(lib, spec, env.files, cli.inputFiles[..r.filesOpened]);
    Text.LinesOfJoin(kept);
    FileOutputIdempotent(lib, spec, lines);
    RunOnOneFile(lib, cli.(inputFiles := [path], output := None),
                 env.(files := env.files[path := AsOk(kept)]), path);
  }

  /** The kept lines of files whose lines hold no newline and end in no
      carriage return hold none either. */
  lemma KeptLinesAreClean(lib: Library, spec: FilterSpec, files: map<Path, seq<LineResult>>, paths: seq<Path>)
    requires forall j :: 0 <= j < |paths| ==> paths[j] in files
    requires forall p, l :: p in files && Ok(l) in files[p] ==> '\n' !in l && !Text.EndsWithCr(l)
    ensures forall l :: l in FileOutput(lib, spec, Concat(files, paths)) ==> '\n' !in l && !Text.EndsWithCr(l)
  {
    FileOutputSound(lib, spec, Concat(files, paths));
    ConcatLinesFrom(files, paths);
  }

  /** A run on a single input file that opens, writing to standard output,
      writes that file's kept lines. */
  lemma RunOnOneFile(lib: Library, cli: Cli, env: Env, path: Path)
    requires cli.inputFiles == [path] && cli.output.None? && path in env.files
    ensures Run(lib, cli, env).output == Text.Join(FileOutput(lib, SpecOf(cli), env.files[path]))
  {
    ReadStep(lib, SpecOf(cli), env.files, cli.inputFiles, 0);
    assert cli.inputFiles[0..] == cli.inputFiles && cli.inputFiles[1..] == [];
    var p := ReadAll(lib, SpecOf(cli), env.files, cli.inputFiles);
    assert p.kept == FileOutput(lib, SpecOf(cli), env.files[path]) + [];
    assert p.kept == FileOutput(lib, SpecOf(cli), env.files[path]);
    assert Run(lib, cli, env).output == Text.Join(p.kept);
  }

  /** Every line of the concatenation comes from one of the files. */
  lemma {:induction false} ConcatLinesFrom(files: map<Path, seq<LineResult>>, paths: seq<Path>)
    requires forall j :: 0 <= j < |paths| ==> paths[j] in files
    ensures forall x :: x in Concat(files, paths) ==> exists p :: p in files && x in files[p]
  {
    if paths != [] {
      ConcatLinesFrom(files, paths[1..]);
      forall x | x in Concat(files, paths) ensures exists p :: p in files && x in files[p] {
        if x in files[paths[0]] {
          assert paths[0] in files;
        } else {
          assert x in Concat(files, paths[1..]);
        }
      }
    }
  }
}
