/** `_merge_videos_thread` of video_merger.py: the concat list written to a
    temporary file, the ffmpeg command line, the stderr lines collected
    while watching the cancel flag, and how the run is judged and cleaned
    up afterwards.

    What the operating system and ffmpeg do is given as a `MergeInput`:
    whether creating or writing the temporary file, starting ffmpeg or
    reading the input sizes raised, the stderr lines, the exit code, and
    whether the output exists and how large it is. The cancel flag is read after every
    stderr line and once more after the wait; `cancelAt` is the first of
    those reads (numbered 0, 1, ... in that order, the read after the wait
    having the number of lines as its number) that finds it cleared. */
module MergeRun {
  import opened Text

  // ---------------------------------------------------------------------
  // The concat list
  // ---------------------------------------------------------------------

  /** `path.replace('\\', '\\\\')` */
  function DoubleBackslashes(p: string): (q: string)
    ensures '\n' !in p ==> '\n' !in q
  {
    if p == [] then [] else (if p[0] == '\\' then "\\\\" else [p[0]]) + DoubleBackslashes(p[1..])
  }

  /** The inverse of the doubling: each doubled backslash is halved. This
      is the model's own reader, not ffmpeg's, which keeps quoted
      backslashes as written. */
  function HalveBackslashes(q: string): string
  {
    if q == [] then []
    else if q[0] == '\\' && |q| >= 2 && q[1] == '\\' then "\\" + HalveBackslashes(q[2..])
    else [q[0]] + HalveBackslashes(q[1..])
  }

  lemma {:induction false} HalveDouble(p: string)
    ensures HalveBackslashes(DoubleBackslashes(p)) == p
  {
    if p != [] {
      HalveDouble(p[1..]);
      var q := DoubleBackslashes(p);
      if p[0] == '\\' {
        assert q[2..] == DoubleBackslashes(p[1..]);
      } else {
        assert q[1..] == DoubleBackslashes(p[1..]);
      }
    }
  }

  /** The path as written on Windows and elsewhere. */
  function Escape(p: string, windows: bool): string
  {
    if windows then DoubleBackslashes(p) else p
  }

  function ListLine(p: string, windows: bool): string
  {
    "file '" + Escape(p, windows) + "'"
  }

  /** The content of the list file: one `file '<path>'` line per input. */
  function Descriptor(files: seq<string>, windows: bool): string
  {
    if files == [] then "" else ListLine(files[0], windows) + "\n" + Descriptor(files[1..], windows)
  }

  /** The writing loop. */
  method WriteDescriptor(files: seq<string>, windows: bool) returns (text: string)
    ensures text == Descriptor(files, windows)
  {
    text := "";
    var i := 0;
    while i < |files|
      invariant 0 <= i <= |files|
      invariant text + Descriptor(files[i..], windows) == Descriptor(files, windows)
    {
      assert files[i..][1..] == files[i + 1..];
      text := text + ListLine(files[i], windows) + "\n";
      i := i + 1;
    }
    assert files[i..] == [];
  }

  /** A line of the list read back by the inverse of the writing: the text
      between `file '` and the last quote, with doubled backslashes halved
      on Windows. */
  function ReadLine(line: string, windows: bool): Option<string>
  {
    if |line| >= 7 && line[..6] == "file '" && line[|line| - 1] == '\''
    then var q := line[6..|line| - 1]; Some(if windows then HalveBackslashes(q) else q)
    else None
  }

  /** Every line read back, the text ending with a newline. */
  function ReadLines(lines: seq<string>, windows: bool): Option<seq<string>>
    requires |lines| >= 1
  {
    if |lines| == 1 then (if lines[0] == "" then Some([]) else None)
    else match (ReadLine(lines[0], windows), ReadLines(lines[1..], windows))
      case (Some(p), Some(ps)) => Some([p] + ps)
      case _ => None
  }

  function ReadDescriptor(text: string, windows: bool): Option<seq<string>>
  {
    ReadLines(Split(text, '\n'), windows)
  }

  lemma {:induction false} SplitLine(a: string, rest: string)
    requires '\n' !in a
    ensures Split(a + "\n" + rest, '\n') == [a] + Split(rest, '\n')
  {
    if a != [] {
      SplitLine(a[1..], rest);
      assert (a + "\n" + rest)[1..] == a[1..] + "\n" + rest;
      assert [a[0]] + a[1..] == a;
    } else {
      assert (a + "\n" + rest)[1..] == rest;
    }
  }

  /** The list determines its inputs in their order: undoing the writing
      gives the paths themselves, on Windows and elsewhere, for paths
      without a line break. */
  lemma {:induction false} DescriptorRoundTrip(files: seq<string>, windows: bool)
    requires forall i :: 0 <= i < |files| ==> '\n' !in files[i]
    ensures ReadDescriptor(Descriptor(files, windows), windows) == Some(files)
  {
    if files != [] {
      var p := files[0];
      var line := ListLine(p, windows);
      assert '\n' !in line;
      DescriptorRoundTrip(files[1..], windows);
      SplitLine(line, Descriptor(files[1..], windows));
      assert line[6..|line| - 1] == Escape(p, windows);
      if windows {
        HalveDouble(p);
      }
      assert [files[0]] + files[1..] == files;
    }
  }

  // ---------------------------------------------------------------------
  // The command line
  // ---------------------------------------------------------------------

  /** `ffmpeg -f concat -safe 0 -i <list> -c copy -y <output>`: the inputs
      come from the list file, streams are copied, and the output is
      overwritten. */
  function FfmpegArgs(listPath: string, output: string): (argv: seq<string>)
    ensures |argv| == 11 && argv[0] == "ffmpeg"
    ensures argv[5] == "-i" && argv[6] == listPath && argv[|argv| - 1] == output
    ensures argv[7..9] == ["-c", "copy"] && argv[9] == "-y"
  {
    ["ffmpeg", "-f", "concat", "-safe", "0", "-i", listPath, "-c", "copy", "-y", output]
  }

  // ---------------------------------------------------------------------
  // stderr and the cancel flag
  // ---------------------------------------------------------------------

  /** The loop over ffmpeg's stderr: every line is kept, and after each
      one the flag is read; the loop stops after the line at which the
      flag is found cleared. */
  method CollectStderr(lines: seq<string>, cancelAt: nat) returns (output: seq<string>, stopped: bool)
    ensures stopped <==> cancelAt < |lines|
    ensures output == lines[..if stopped then cancelAt + 1 else |lines|]
  {
    output := [];
    stopped := false;
    var i := 0;
    while i < |lines| && !stopped
      invariant 0 <= i <= |lines|
      invariant output == lines[..i]
      invariant stopped ==> i == cancelAt + 1
      invariant !stopped ==> i <= cancelAt
    {
      output := output + [lines[i]];
      if i >= cancelAt {
        stopped := true;
      }
      i := i + 1;
    }
  }

  /** The lines shown in a failure report: the last ten, or all of them. */
  function ErrorTail(lines: seq<string>): (tail: seq<string>)
    ensures |tail| == if |lines| > 10 then 10 else |lines|
    ensures lines == lines[..|lines| - |tail|] + tail
  {
    if |lines| > 10 then lines[|lines| - 10..] else lines
  }

  /** `str(process.returncode)`: a number, or "None" when ffmpeg was
      killed after the wait timed out and never reaped. */
  function ExitCodeText(rc: Option<int>): string
  {
    if rc.Some? then IntToString(rc.value) else "None"
  }

  function FailureMessage(rc: Option<int>, output: seq<string>): string
  {
    "视频合并失败，错误代码: " + ExitCodeText(rc) + "\n\n" + "错误详情: " + Concat(ErrorTail(output))
  }

  function TotalSize(sizes: seq<nat>): nat
  {
    if sizes == [] then 0 else sizes[0] + TotalSize(sizes[1..])
  }

  /** `output_size < total_input_size * 0.8`, in exact arithmetic. */
  predicate TooSmall(outputSize: nat, totalInput: nat)
  {
    5 * outputSize < 4 * totalInput
  }

  // ---------------------------------------------------------------------
  // The run
  // ---------------------------------------------------------------------

  /** The three kinds of exception the worker reports. */
  datatype Fault = PermissionFault(reason: string) | NotFoundFault(reason: string) | OtherFault(reason: string)

  datatype MergeInput = MergeInput(
    files: seq<string>,
    output: string,
    windows: bool,
    tempPath: string,
    createFault: Option<Fault>,     // creating the list file, before its path is recorded
    writeFault: Option<Fault>,      // writing or closing the list file, after its path is recorded
    launchFault: Option<Fault>,     // starting ffmpeg, or reading its stderr (a decoding error, say)
    stderr: seq<string>,            // ffmpeg's stderr lines, each with its newline
    cancelAt: nat,
    returncode: Option<int>,
    outputExists: bool,
    outputSize: nat,
    inputSizes: seq<nat>,
    sizeFault: Option<Fault>)       // reading the input sizes

  datatype Outcome =
    | Cancelled
    | Succeeded(sizeWarning: bool)
    | Failed(returncode: Option<int>, message: string)
    | Crashed(fault: Fault)

  /** What the worker leaves behind: the outcome, the list text written and
      the command run (when it got that far), and the files it removes. */
  datatype MergeResult = MergeResult(outcome: Outcome, descriptor: Option<string>, argv: Option<seq<string>>, removed: seq<string>)

  /** The output when it exists (it is removed on cancel and failure). */
  function OutputIfPresent(m: MergeInput): seq<string>
  {
    if m.outputExists then [m.output] else []
  }

  /** The judgement of a run once ffmpeg was started. */
  function Judge(m: MergeInput, collected: seq<string>, stopped: bool): (r: (Outcome, seq<string>))
  {
    if stopped || |m.stderr| >= m.cancelAt then (Cancelled, OutputIfPresent(m) + [m.tempPath])
    else if m.returncode == Some(0) && m.outputExists && m.outputSize > 0 then
      if m.sizeFault.Some? then (Crashed(m.sizeFault.value), [m.tempPath])
      else (Succeeded(TooSmall(m.outputSize, TotalSize(m.inputSizes))), [m.tempPath])
    else (Failed(m.returncode, FailureMessage(m.returncode, collected)), OutputIfPresent(m) + [m.tempPath])
  }

  function StderrSeen(m: MergeInput): (r: (seq<string>, bool))
  {
    var stopped := m.cancelAt < |m.stderr|;
    (m.stderr[..if stopped then m.cancelAt + 1 else |m.stderr|], stopped)
  }

  function Merge(m: MergeInput): MergeResult
  {
    if m.createFault.Some? then MergeResult(Crashed(m.createFault.value), None, None, [])
    else if m.writeFault.Some? then MergeResult(Crashed(m.writeFault.value), None, None, [m.tempPath])
    else
      var text := Descriptor(m.files, m.windows);
      var argv := FfmpegArgs(m.tempPath, m.output);
      if m.launchFault.Some? then MergeResult(Crashed(m.launchFault.value), Some(text), Some(argv), [m.tempPath])
      else
        var (collected, stopped) := StderrSeen(m);
        var (outcome, removed) := Judge(m, collected, stopped);
        MergeResult(outcome, Some(text), Some(argv), removed)
  }

  /** The worker, step by step. */
  method MergeVideosThread(m: MergeInput) returns (result: MergeResult)
    ensures result == Merge(m)
  {
    if m.createFault.Some? {
      return MergeResult(Crashed(m.createFault.value), None, None, []);
    }
    if m.writeFault.Some? {
      return MergeResult(Crashed(m.writeFault.value), None, None, [m.tempPath]);
    }
    var text := WriteDescriptor(m.files, m.windows);
    var argv := FfmpegArgs(m.tempPath, m.output);
    if m.launchFault.Some? {
      return MergeResult(Crashed(m.launchFault.value), Some(text), Some(argv), [m.tempPath]);
    }
    var collected, stopped := CollectStderr(m.stderr, m.cancelAt);
    var removed := [m.tempPath];
    var outcome;
    if stopped || |m.stderr| >= m.cancelAt {
      outcome := Cancelled;
      removed := OutputIfPresent(m) + removed;
    } else if m.returncode == Some(0) && m.outputExists && m.outputSize > 0 {
      if m.sizeFault.Some? {
        outcome := Crashed(m.sizeFault.value);
      } else {
        outcome := Succeeded(TooSmall(m.outputSize, TotalSize(m.inputSizes)));
      }
    } else {
      outcome := Failed(m.returncode, FailureMessage(m.returncode, collected));
      removed := OutputIfPresent(m) + removed;
    }
    result := MergeResult(outcome, Some(text), Some(argv), removed);
  }

  /** The status line the worker posts for an outcome; the size-warning
      text, which formats sizes with `_format_size`, is not modelled. */
  function WorkerStatus(o: Outcome, output: string): (r: Option<string>)
    ensures r.None? <==> o.Succeeded? && o.sizeWarning
  {
    match o
    case Cancelled => Some("合并已取消")
    case Succeeded(warn) => if warn then None else Some("视频合并成功: " + output)
    case Failed(rc, _) => Some("合并失败: " + ExitCodeText(rc))
    case Crashed(PermissionFault(_)) => Some("合并失败: 权限错误")
    case Crashed(NotFoundFault(_)) => Some("合并失败: 文件未找到")
    case Crashed(OtherFault(_)) => Some("合并失败: 未知错误")
  }

  /** A run is cancelled exactly when ffmpeg was started and the flag was
      found cleared at one of the reads; a cancelled run has not looked at
      the exit code. */
  lemma CancelledIff(m: MergeInput)
    ensures Merge(m).outcome.Cancelled? <==>
      m.createFault.None? && m.writeFault.None? && m.launchFault.None? && m.cancelAt <= |m.stderr|
  {
  }

  /** Success needs exit code 0 and a non-empty output, and warns exactly
      when the output is under 80% of the inputs' total size. */
  lemma SucceededIff(m: MergeInput)
    ensures Merge(m).outcome.Succeeded? <==>
      m.createFault.None? && m.writeFault.None? && m.launchFault.None? && m.cancelAt > |m.stderr| &&
      m.returncode == Some(0) && m.outputExists && m.outputSize > 0 && m.sizeFault.None?
    ensures Merge(m).outcome.Succeeded? ==>
      (Merge(m).outcome.sizeWarning <==> 10 * m.outputSize < 8 * TotalSize(m.inputSizes))
  {
  }

  /** A failure reports the exit code and the last min(n, 10) of all the
      stderr lines, in order. */
  lemma FailureReport(m: MergeInput)
    requires Merge(m).outcome.Failed?
    ensures Merge(m).outcome.returncode == m.returncode
    ensures !(m.returncode == Some(0) && m.outputExists && m.outputSize > 0)
    ensures var n := |m.stderr|; var k := if n > 10 then 10 else n;
      Merge(m).outcome.message ==
        "视频合并失败，错误代码: " + ExitCodeText(m.returncode) + "\n\n" + "错误详情: " + Concat(m.stderr[n - k..])
  {
    assert m.stderr[..|m.stderr|] == m.stderr;
  }

  /** Cleanup: once created, the list file goes on every path, a failed
      write included; the output goes exactly on cancel and on failure,
      when it exists; nothing else is removed. */
  lemma Cleanup(m: MergeInput)
    ensures m.createFault.Some? ==> Merge(m).removed == []
    ensures m.createFault.None? ==> Merge(m).removed != [] && Merge(m).removed[|Merge(m).removed| - 1] == m.tempPath
    ensures m.createFault.None? && m.writeFault.Some? ==>
      Merge(m).outcome == Crashed(m.writeFault.value) && Merge(m).removed == [m.tempPath]
    ensures m.createFault.None? ==>
      Merge(m).removed == (if (Merge(m).outcome.Cancelled? || Merge(m).outcome.Failed?) && m.outputExists
                           then [m.output] else []) + [m.tempPath]
  {
  }
}
