/** The batch-script side of layer generation: the scheduler directives
    assembled from the configuration (`render_job_script`) and the
    substitution of named fields into the job template (`str.format`).
    The template file is read elsewhere and enters already split into
    literal text and `{name}` placeholders; the text of `nodes` and
    `ntasks_per_node` is Python's `str(int)`. */
module Jobs {
  import opened Results
  import opened Strings

  // ---------------------------------------------------------------------
  // Configuration
  // ---------------------------------------------------------------------

  /** `SchedulerConfig`: how jobs are submitted and which `#SBATCH` lines
      the script carries. */
  datatype SchedulerConfig = SchedulerConfig(
    submitCommand: string,
    partition: Option<string>,
    exclude: Option<string>,
    nodes: int,
    ntasksPerNode: int,
    exportEnv: string,
    extraLines: seq<string>)

  /** The dataclass defaults: `qsub`, no partition or exclusion, one node
      of 48 tasks, `--export=ALL`, no extra lines. */
  const DefaultScheduler: SchedulerConfig :=
    SchedulerConfig("qsub", None, None, 1, 48, "ALL", [])

  /** `JobRenderConfig`: the job's name and its output and error files. */
  datatype JobRenderConfig = JobRenderConfig(jobName: string, stdout: string, stderr: string)

  /** A `JobRenderConfig` given only its name; the scheduler's `%j` (the job
      id) names the output files. */
  function NamedJob(jobName: string): JobRenderConfig {
    JobRenderConfig(jobName, "%j.out", "%j.err")
  }

  // ---------------------------------------------------------------------
  // Scheduler directives
  // ---------------------------------------------------------------------

  function PartitionLine(p: string): string {
    "#SBATCH --partition=" + p + "\n"
  }

  function ExcludeLine(e: string): string {
    "#SBATCH --exclude=" + e + "\n"
  }

  function BoolCount(b: bool): nat {
    if b then 1 else 0
  }

  /** The directive lines, in order: the partition line when a partition is
      set and non-empty, the exclusion line likewise, then every extra line
      verbatim with a newline added. */
  function DirectiveLines(c: SchedulerConfig): (r: seq<string>)
    ensures |r| == BoolCount(Truthy(c.partition)) + BoolCount(Truthy(c.exclude)) + |c.extraLines|
    ensures Truthy(c.partition) ==> r[0] == PartitionLine(c.partition.value)
    ensures Truthy(c.exclude) ==> r[BoolCount(Truthy(c.partition))] == ExcludeLine(c.exclude.value)
    ensures forall j :: 0 <= j < |c.extraLines| ==>
      r[BoolCount(Truthy(c.partition)) + BoolCount(Truthy(c.exclude)) + j] == c.extraLines[j] + "\n"
  {
    (if Truthy(c.partition) then [PartitionLine(c.partition.value)] else [])
    + (if Truthy(c.exclude) then [ExcludeLine(c.exclude.value)] else [])
    + seq(|c.extraLines|, j requires 0 <= j < |c.extraLines| => c.extraLines[j] + "\n")
  }

  /** `scheduler_directives`: the directive lines joined. */
  function Directives(c: SchedulerConfig): (r: string)
    ensures Truthy(c.partition) ==> StartsWith(r, PartitionLine(c.partition.value))
    ensures !Truthy(c.partition) && Truthy(c.exclude) ==> StartsWith(r, ExcludeLine(c.exclude.value))
  {
    var lines := DirectiveLines(c);
    if |lines| > 0 then
      var first, rest := lines[0], lines[1..];
      assert lines == [first] + rest;
      ConcatAppend([first], rest);
      ConcatOne(first);
      assert (first + Concat(rest))[..|first|] == first;
      Concat(lines)
    else Concat(lines)
  }

  /** The directives are empty exactly when no partition, no exclusion and
      no extra line is configured. */
  lemma DirectivesEmpty(c: SchedulerConfig)
    ensures Directives(c) == "" <==>
      !Truthy(c.partition) && !Truthy(c.exclude) && |c.extraLines| == 0
  {
    var lines := DirectiveLines(c);
    ConcatEmpty(lines);
    if |lines| > 0 {
      var k := |lines| - 1;
      if |c.extraLines| > 0 {
        assert lines[k] == c.extraLines[|c.extraLines| - 1] + "\n";
      } else if Truthy(c.exclude) {
        assert lines[k] == ExcludeLine(c.exclude.value);
      } else {
        assert lines[k] == PartitionLine(c.partition.value);
      }
      assert lines[k] != "";
    }
  }

  /** Each directive line ends in a newline, so the directives do too
      whenever there are any; a template that places them directly before
      its next line keeps every `#SBATCH` directive on its own line. */
  lemma DirectivesEndInNewline(c: SchedulerConfig)
    ensures Directives(c) != "" ==> Directives(c)[|Directives(c)| - 1] == '\n'
  {
    var lines := DirectiveLines(c);
    if |lines| > 0 {
      var k := |lines| - 1;
      var last := lines[k];
      assert last[|last| - 1] == '\n' by {
        if |c.extraLines| > 0 {
          assert last == c.extraLines[|c.extraLines| - 1] + "\n";
        } else if Truthy(c.exclude) {
          assert last == ExcludeLine(c.exclude.value);
        } else {
          assert last == PartitionLine(c.partition.value);
        }
      }
      assert lines == lines[..k] + [last];
      ConcatAppend(lines[..k], [last]);
      assert Concat([last]) == last + "" == last;
    } else {
      DirectivesEmpty(c);
    }
  }

  /** Configuring one more extra line appends exactly that line, with its
      newline, to the directives: extra lines keep their configured order. */
  lemma DirectivesAppendExtra(c: SchedulerConfig, line: string)
    ensures Directives(c.(extraLines := c.extraLines + [line])) == Directives(c) + line + "\n"
  {
    var lines := DirectiveLines(c);
    DirectiveLinesAppendExtra(c, line);
    ConcatAppend(lines, [line + "\n"]);
    assert Concat([line + "\n"]) == line + "\n" + "";
  }

  lemma DirectiveLinesAppendExtra(c: SchedulerConfig, line: string)
    ensures DirectiveLines(c.(extraLines := c.extraLines + [line])) == DirectiveLines(c) + [line + "\n"]
  {
    var lines, lines' := DirectiveLines(c), DirectiveLines(c.(extraLines := c.extraLines + [line]));
    assert |lines'| == |lines| + 1;
    forall j | 0 <= j < |lines'| ensures lines'[j] == (lines + [line + "\n"])[j] {
    }
  }

  /** A scheduler with a partition, an exclusion and one extra line emits
      the three lines in that order. */
  lemma DirectivesOfThree(c: SchedulerConfig, p: string, e: string, x: string)
    requires c.partition == Some(p) && p != "" && c.exclude == Some(e) && e != ""
    requires c.extraLines == [x]
    ensures Directives(c) == PartitionLine(p) + ExcludeLine(e) + x + "\n"
  {
    var lines := DirectiveLines(c);
    assert lines == [PartitionLine(p)] + [ExcludeLine(e)] + [x + "\n"];
    ConcatAppend([PartitionLine(p)] + [ExcludeLine(e)], [x + "\n"]);
    ConcatAppend([PartitionLine(p)], [ExcludeLine(e)]);
    ConcatOne(PartitionLine(p));
    ConcatOne(ExcludeLine(e));
    ConcatOne(x + "\n");
  }

  /** The default configuration has no directives. */
  lemma DefaultHasNoDirectives()
    ensures Directives(DefaultScheduler) == ""
  {
    DirectivesEmpty(DefaultScheduler);
  }

  // ---------------------------------------------------------------------
  // Templates
  // ---------------------------------------------------------------------

  /** The fields `render_job_script` passes to `str.format`. */
  datatype Field =
    | JobName
    | SchedulerDirectives
    | Nodes
    | NtasksPerNode
    | ExportEnv
    | Stdout
    | Stderr
    | VaspExecutable

  function FieldName(f: Field): string {
    match f
    case JobName => "job_name"
    case SchedulerDirectives => "scheduler_directives"
    case Nodes => "nodes"
    case NtasksPerNode => "ntasks_per_node"
    case ExportEnv => "export_env"
    case Stdout => "stdout"
    case Stderr => "stderr"
    case VaspExecutable => "vasp_executable"
  }

  /** The field a placeholder name refers to, if any. */
  function FieldNamed(name: string): Option<Field> {
    if name == "job_name" then Some(JobName)
    else if name == "scheduler_directives" then Some(SchedulerDirectives)
    else if name == "nodes" then Some(Nodes)
    else if name == "ntasks_per_node" then Some(NtasksPerNode)
    else if name == "export_env" then Some(ExportEnv)
    else if name == "stdout" then Some(Stdout)
    else if name == "stderr" then Some(Stderr)
    else if name == "vasp_executable" then Some(VaspExecutable)
    else None
  }

  /** Names and fields are in one-to-one correspondence: every field is
      found under its own name, and a name finds a field only if it is that
      field's name. */
  lemma FieldNameRoundTrip(f: Field, name: string)
    ensures FieldNamed(FieldName(f)) == Some(f)
    ensures FieldNamed(name) == Some(f) <==> name == FieldName(f)
  {
  }

  /** A template as `str.format` parses it: literal text and `{name}`
      replacement fields, in order. */
  datatype Segment = Literal(text: string) | Placeholder(name: string)

  /** `str.format` raises `KeyError` on a name it was not given. */
  datatype RenderError = UnknownField(name: string)

  predicate Known(s: Segment) {
    s.Placeholder? ==> FieldNamed(s.name).Some?
  }

  /** The text a known segment stands for. */
  function SegmentText(s: Segment, values: Field -> string): string
    requires Known(s)
  {
    match s
    case Literal(t) => t
    case Placeholder(n) => values(FieldNamed(n).value)
  }

  /** `template.format(**values)`: every replacement field is substituted
      by its value, left to right; the first unknown name aborts. */
  function Render(t: seq<Segment>, values: Field -> string): (r: Result<string, RenderError>)
    ensures r.Err? ==> Placeholder(r.error.name) in t && FieldNamed(r.error.name).None?
    ensures (forall i :: 0 <= i < |t| ==> t[i].Literal?) ==> r.Ok?
  {
    if |t| == 0 then Ok("")
    else if !Known(t[0]) then Err(UnknownField(t[0].name))
    else
      assert t == [t[0]] + t[1..];
      var rest := Render(t[1..], values);
      if rest.Err? then rest else Ok(SegmentText(t[0], values) + rest.value)
  }

  /** Rendering succeeds exactly when every placeholder names a field, and
      then yields each literal unchanged and each placeholder replaced by
      its field's value, in template order. */
  lemma {:induction false} RenderOk(t: seq<Segment>, values: Field -> string)
    ensures Render(t, values).Ok? <==> forall i :: 0 <= i < |t| ==> Known(t[i])
    ensures Render(t, values).Ok? ==>
      Render(t, values).value == Concat(seq(|t|, i requires 0 <= i < |t| && Known(t[i]) => SegmentText(t[i], values)))
  {
    if |t| > 0 {
      RenderOk(t[1..], values);
      assert forall i :: 1 <= i < |t| ==> t[i] == t[1..][i - 1];
      if forall i :: 0 <= i < |t| ==> Known(t[i]) {
        var texts := seq(|t|, i requires 0 <= i < |t| && Known(t[i]) => SegmentText(t[i], values));
        var rest := seq(|t| - 1, i requires 0 <= i < |t| - 1 && Known(t[1..][i]) => SegmentText(t[1..][i], values));
        assert texts[1..] == rest;
      }
    }
  }

  /** A failed rendering names the first placeholder without a field. */
  lemma {:induction false} RenderFirstUnknown(t: seq<Segment>, values: Field -> string)
    requires Render(t, values).Err?
    ensures exists i :: (
      && 0 <= i < |t|
      && t[i].Placeholder? && FieldNamed(t[i].name).None?
      && Render(t, values).error == UnknownField(t[i].name)
      && forall j :: 0 <= j < i ==> Known(t[j]))
  {
    if Known(t[0]) {
      var rest := t[1..];
      RenderFirstUnknown(rest, values);
      var i :| && 0 <= i < |rest|
               && rest[i].Placeholder? && FieldNamed(rest[i].name).None?
               && Render(rest, values).error == UnknownField(rest[i].name)
               && forall j :: 0 <= j < i ==> Known(rest[j]);
      assert t[i + 1] == rest[i];
      forall j | 0 <= j < i + 1 ensures Known(t[j]) {
        if j > 0 {
          assert t[j] == rest[j - 1];
        }
      }
    }
  }

  /** Rendering is compositional: the rendering of two template parts one
      after the other is the two renderings one after the other. */
  lemma {:induction false} RenderAppend(a: seq<Segment>, b: seq<Segment>, values: Field -> string)
    requires Render(a, values).Ok? && Render(b, values).Ok?
    ensures Render(a + b, values) == Ok(Render(a, values).value + Render(b, values).value)
  {
    if |a| == 0 {
      var yb := Render(b, values).value;
      assert a + b == b;
      assert "" + yb == yb;
    } else {
      RenderUnfold(a, values);
      RenderAppend(a[1..], b, values);
      RenderAppendStep(a, b, values);
    }
  }

  lemma RenderAppendStep(a: seq<Segment>, b: seq<Segment>, values: Field -> string)
    requires |a| > 0 && Known(a[0])
    requires Render(a[1..], values).Ok? && Render(b, values).Ok?
    requires Render(a[1..] + b, values) == Ok(Render(a[1..], values).value + Render(b, values).value)
    ensures Render(a, values).Ok?
    ensures Render(a + b, values) == Ok(Render(a, values).value + Render(b, values).value)
  {
    var x := SegmentText(a[0], values);
    var ya := Render(a[1..], values).value;
    var yb := Render(b, values).value;
    TailOfAppend(a, b);
    RenderUnfold'(a + b, values);
    RenderUnfold'(a, values);
    AppendAssoc(x, ya, yb);
  }

  lemma TailOfAppend<T>(a: seq<T>, b: seq<T>)
    requires |a| > 0
    ensures (a + b)[0] == a[0] && (a + b)[1..] == a[1..] + b
  {
  }

  lemma AppendAssoc<T>(x: seq<T>, y: seq<T>, z: seq<T>)
    ensures x + (y + z) == (x + y) + z
  {
  }

  lemma RenderUnfold(t: seq<Segment>, values: Field -> string)
    requires |t| > 0 && Render(t, values).Ok?
    ensures Known(t[0]) && Render(t[1..], values).Ok?
    ensures Render(t, values).value == SegmentText(t[0], values) + Render(t[1..], values).value
  {
  }

  lemma RenderUnfold'(t: seq<Segment>, values: Field -> string)
    requires |t| > 0 && Known(t[0]) && Render(t[1..], values).Ok?
    ensures Render(t, values) == Ok(SegmentText(t[0], values) + Render(t[1..], values).value)
  {
  }

  /** Literal text renders to itself whatever the values. */
  lemma RenderLiteral(text: string, values: Field -> string)
    ensures Render([Literal(text)], values) == Ok(text)
  {
    assert [Literal(text)][1..] == [];
    assert text + "" == text;
  }

  /** A lone placeholder renders to its field's value. */
  lemma RenderPlaceholder(f: Field, values: Field -> string)
    ensures Render([Placeholder(FieldName(f))], values) == Ok(values(f))
  {
    FieldNameRoundTrip(f, FieldName(f));
    assert [Placeholder(FieldName(f))][1..] == [];
    assert values(f) + "" == values(f);
  }

  // ---------------------------------------------------------------------
  // The job script
  // ---------------------------------------------------------------------

  /** The value of each field for a job: the job's name and output files,
      the scheduler's directives, node and task counts in decimal, exported
      environment, and the VASP executable. */
  function JobValues(scheduler: SchedulerConfig, vaspExecutable: string, params: JobRenderConfig): Field -> string {
    (f: Field) =>
      match f
      case JobName => params.jobName
      case SchedulerDirectives => Directives(scheduler)
      case Nodes => IntToDecimal(scheduler.nodes)
      case NtasksPerNode => IntToDecimal(scheduler.ntasksPerNode)
      case ExportEnv => scheduler.exportEnv
      case Stdout => params.stdout
      case Stderr => params.stderr
      case VaspExecutable => vaspExecutable
  }

  /** `render_job_script`, with the template text already read and split. */
  function RenderJobScript(template: seq<Segment>, scheduler: SchedulerConfig, vaspExecutable: string, params: JobRenderConfig)
    : (r: Result<string, RenderError>)
    ensures r.Ok? <==> forall i :: 0 <= i < |template| ==> Known(template[i])
    ensures r.Err? ==> Placeholder(r.error.name) in template && FieldNamed(r.error.name).None?
  {
    RenderOk(template, JobValues(scheduler, vaspExecutable, params));
    Render(template, JobValues(scheduler, vaspExecutable, params))
  }

  /** A `{nodes}` placeholder becomes the node count in decimal and
      `{scheduler_directives}` the assembled directives. */
  lemma JobScriptFields(scheduler: SchedulerConfig, vaspExecutable: string, params: JobRenderConfig)
    ensures RenderJobScript([Placeholder("nodes")], scheduler, vaspExecutable, params)
      == Ok(IntToDecimal(scheduler.nodes))
    ensures RenderJobScript([Placeholder("ntasks_per_node")], scheduler, vaspExecutable, params)
      == Ok(IntToDecimal(scheduler.ntasksPerNode))
    ensures RenderJobScript([Placeholder("scheduler_directives")], scheduler, vaspExecutable, params)
      == Ok(Directives(scheduler))
  {
    var values := JobValues(scheduler, vaspExecutable, params);
    RenderPlaceholder(Nodes, values);
    RenderPlaceholder(NtasksPerNode, values);
    RenderPlaceholder(SchedulerDirectives, values);
  }

  /** A job configured by name alone writes to `%j.out` and `%j.err`. */
  lemma NamedJobOutputs(jobName: string, scheduler: SchedulerConfig, vaspExecutable: string)
    ensures RenderJobScript([Placeholder("job_name")], scheduler, vaspExecutable, NamedJob(jobName)) == Ok(jobName)
    ensures RenderJobScript([Placeholder("stdout")], scheduler, vaspExecutable, NamedJob(jobName)) == Ok("%j.out")
    ensures RenderJobScript([Placeholder("stderr")], scheduler, vaspExecutable, NamedJob(jobName)) == Ok("%j.err")
  {
    var values := JobValues(scheduler, vaspExecutable, NamedJob(jobName));
    RenderPlaceholder(JobName, values);
    RenderPlaceholder(Stdout, values);
    RenderPlaceholder(Stderr, values);
  }
}
