/** The checks video_merger.py makes before a merge starts: the ffmpeg
    version banner read at start-up, the compatibility verdict over the
    probed video streams, the order of the checks in `start_merge`, and
    the condition under which the merge button is enabled. The results of
    running `ffmpeg -version` and `ffprobe` are parameters. */
module MergeCheck {
  import opened Text
  import opened Paths

  // ---------------------------------------------------------------------
  // The version banner
  // ---------------------------------------------------------------------

  const Banner: string := "ffmpeg version "

  /** The longest prefix of `s` without whitespace (what `\S+` takes). */
  function NonSpaceRun(s: string): (r: string)
    ensures StartsWith(s, r)
    ensures forall i :: 0 <= i < |r| ==> !IsSpace(r[i])
    ensures |r| < |s| ==> IsSpace(s[|r|])
  {
    if s == [] || IsSpace(s[0]) then [] else [s[0]] + NonSpaceRun(s[1..])
  }

  /** `ffmpeg version (\S+)` tried at position `p` of `line`. */
  function VersionAt(line: string, p: nat): Option<string>
  {
    if p + |Banner| < |line| && line[p..p + |Banner|] == Banner && !IsSpace(line[p + |Banner|])
    then Some(NonSpaceRun(line[p + |Banner|..]))
    else None
  }

  /** `re.search`: the match at the leftmost position from `p` on. */
  function SearchVersion(line: string, p: nat): Option<string>
    decreases |line| - p
  {
    if p >= |line| then None
    else match VersionAt(line, p)
      case Some(v) => Some(v)
      case None => SearchVersion(line, p + 1)
  }

  /** The version read from the first line of `ffmpeg -version`. */
  function ParseVersion(stdout: string): Option<string>
  {
    SearchVersion(Split(stdout, '\n')[0], 0)
  }

  /** `line` has the banner at `q`, then `v`, then a blank or its end. */
  predicate BannerAt(line: string, q: nat, v: string)
  {
    q + |Banner| + |v| <= |line| && line[q..q + |Banner|] == Banner &&
    line[q + |Banner|..q + |Banner| + |v|] == v &&
    (q + |Banner| + |v| == |line| || IsSpace(line[q + |Banner| + |v|]))
  }

  /** What the search finds is a non-empty run of non-blank characters
      standing right after the banner on the first line, at its leftmost
      occurrence, and running up to a blank or the end of the line. */
  lemma {:induction false} SearchVersionSound(line: string, p: nat)
    requires SearchVersion(line, p).Some?
    ensures var v := SearchVersion(line, p).value;
      v != [] && (forall i :: 0 <= i < |v| ==> !IsSpace(v[i])) && exists q :: p <= q && BannerAt(line, q, v)
    decreases |line| - p
  {
    if VersionAt(line, p).None? {
      SearchVersionSound(line, p + 1);
    } else {
      var rest := line[p + |Banner|..];
      var v := NonSpaceRun(rest);
      assert v[0] == rest[0];
      var e := p + |Banner| + |v|;
      assert e <= |line|;
      assert line[p + |Banner|..e] == rest[..|v|] == v;
      assert e == |line| || IsSpace(line[e]) by {
        if |v| < |rest| {
          assert line[e] == rest[|v|];
        }
      }
      assert BannerAt(line, p, v);
    }
  }

  /** A prefix without a line break stays on the first line. */
  lemma FirstLinePrefix(s: string, p: string)
    requires StartsWith(s, p) && forall i :: 0 <= i < |p| ==> p[i] != '\n'
    ensures StartsWith(s, Split(s, '\n')[0]) && StartsWith(Split(s, '\n')[0], p)
  {
    var line := Split(s, '\n')[0];
    SplitFirst(s, '\n');
    assert forall i :: 0 <= i < |p| ==> s[i] == p[i] != '\n' by {
      forall i | 0 <= i < |p| ensures s[i] == p[i] {
        assert s[..|p|][i] == s[i];
      }
    }
    forall i | 0 <= i < |p| ensures line[i] == p[i] {
      assert line[i] == s[i];
    }
  }

  /** A banner at the start of the output gives back the version written
      after it. */
  lemma StandardBanner(v: string, rest: string)
    requires v != [] && forall i :: 0 <= i < |v| ==> !IsSpace(v[i])
    requires rest == [] || IsSpace(rest[0])
    ensures ParseVersion(Banner + v + rest) == Some(v)
  {
    var out := Banner + v + rest;
    var bv := Banner + v;
    var line := Split(out, '\n')[0];
    assert StartsWith(out, bv) by {
      assert out[..|bv|] == bv;
    }
    assert forall i :: 0 <= i < |bv| ==> bv[i] != '\n' by {
      forall i | 0 <= i < |bv| ensures bv[i] != '\n' {
        if i >= |Banner| {
          assert bv[i] == v[i - |Banner|];
        }
      }
    }
    FirstLinePrefix(out, bv);
    var tail := line[|Banner|..];
    assert StartsWith(tail, v) by {
      forall i | 0 <= i < |v| ensures tail[i] == v[i] {
        assert tail[i] == line[|Banner| + i] == bv[|Banner| + i];
      }
    }
    assert |tail| > |v| ==> IsSpace(tail[|v|]) by {
      if |tail| > |v| {
        assert tail[|v|] == line[|bv|] == out[|bv|] == rest[0];
      }
    }
    assert VersionAt(line, 0) == Some(NonSpaceRun(tail)) by {
      assert line[0..|Banner|] == bv[..|Banner|] == Banner;
      assert line[|Banner|] == bv[|Banner|] == v[0];
    }
    NonSpaceRunPrefix(tail, v);
  }

  lemma {:induction false} NonSpaceRunPrefix(s: string, v: string)
    requires StartsWith(s, v) && forall i :: 0 <= i < |v| ==> !IsSpace(v[i])
    requires |s| > |v| ==> IsSpace(s[|v|])
    ensures NonSpaceRun(s) == v
  {
    if v != [] {
      assert s[1..][..|v| - 1] == v[1..];
      NonSpaceRunPrefix(s[1..], v[1..]);
      assert [s[0]] + v[1..] == v;
    } else if s != [] {
      assert IsSpace(s[0]);
    }
  }

  // ---------------------------------------------------------------------
  // Compatibility of the probed streams
  // ---------------------------------------------------------------------

  /** The four stream fields ffprobe is asked for (codec_name, width,
      height, pix_fmt). A file whose probe failed has no VideoInfo. */
  datatype VideoInfo = VideoInfo(codec: string, width: int, height: int, pixFmt: string)

  const NoFfmpegForCheck: string := "未安装ffmpeg，无法检查视频兼容性"
  const UnreadablePrefix: string := "无法读取"
  const IncompatibleHeader: string := "以下视频文件与第一个视频不兼容（编码或分辨率不同）:\n"
  const IncompatibleAdvice: string := "\n建议: 确保所有视频使用相同的编码器和分辨率，否则合并可能失败或产生异常结果。\n继续合并吗？"

  function FirstUnreadableMessage(path: string): string { "无法读取第一个视频文件的信息: " + path }
  function UnreadableMessage(path: string): string { "无法读取视频文件的信息: " + path }

  /** The field-by-field comparison the check makes. */
  predicate SameStream(a: VideoInfo, b: VideoInfo)
  {
    a.codec == b.codec && a.width == b.width && a.height == b.height && a.pixFmt == b.pixFmt
  }

  /** What the loop over the later files ends with: the first file it could
      not read, or the (1-based position, base name) of every mismatch. */
  datatype Survey = Unreadable(path: string) | Listed(mismatches: seq<(nat, string)>)

  function SurveyFrom(files: seq<string>, probes: seq<Option<VideoInfo>>, first: VideoInfo, i: nat): Survey
    requires |probes| == |files|
    decreases |files| - i
  {
    if i >= |files| then Listed([])
    else match probes[i]
      case None => Unreadable(files[i])
      case Some(info) =>
        var rest := SurveyFrom(files, probes, first, i + 1);
        if rest.Unreadable? then rest
        else Listed((if SameStream(info, first) then [] else [(i + 1, Basename(files[i]))]) + rest.mismatches)
  }

  /** One "{idx}. {filename}\n" line per mismatch. */
  function MismatchLines(ms: seq<(nat, string)>): string
  {
    if ms == [] then "" else NatToString(ms[0].0) + ". " + ms[0].1 + "\n" + MismatchLines(ms[1..])
  }

  /** `_check_video_compatibility`: (compatible, message). */
  function CheckCompatibility(files: seq<string>, available: bool, probes: seq<Option<VideoInfo>>): (r: (bool, string))
    requires |probes| == |files|
    ensures r.0 <==> r.1 == ""
  {
    if |files| < 2 then (true, "")
    else if !available then (false, NoFfmpegForCheck)
    else match probes[0]
      case None => (false, FirstUnreadableMessage(files[0]))
      case Some(first) =>
        match SurveyFrom(files, probes, first, 1)
        case Unreadable(p) => (false, UnreadableMessage(p))
        case Listed(ms) =>
          if ms == [] then (true, "") else (false, IncompatibleHeader + MismatchLines(ms) + IncompatibleAdvice)
  }

  /** The index of the first failed probe, or the number of probes. */
  function FirstFailure(probes: seq<Option<VideoInfo>>): (k: nat)
    ensures k <= |probes|
    ensures k < |probes| ==> probes[k].None?
    ensures forall j :: 0 <= j < k ==> probes[j].Some?
  {
    if probes == [] then 0
    else if probes[0].None? then 0
    else 1 + FirstFailure(probes[1..])
  }

  lemma {:induction false} SurveyAgrees(files: seq<string>, probes: seq<Option<VideoInfo>>, others: seq<Option<VideoInfo>>,
                                        first: VideoInfo, i: nat)
    requires |probes| == |files| == |others| && i <= FirstFailure(probes)
    requires forall k :: 0 <= k < |files| && k <= FirstFailure(probes) ==> others[k] == probes[k]
    ensures SurveyFrom(files, probes, first, i) == SurveyFrom(files, others, first, i)
    decreases |files| - i
  {
    if i < |files| && probes[i].Some? {
      SurveyAgrees(files, probes, others, first, i + 1);
    }
  }

  /** Files are probed in order and the check stops at the first one that
      cannot be read: probes after it play no part in the verdict (so an
      unreadable first file is reported before any other is probed). */
  lemma ProbedUpToFirstFailure(files: seq<string>, available: bool, probes: seq<Option<VideoInfo>>, others: seq<Option<VideoInfo>>)
    requires |probes| == |files| == |others|
    requires forall k :: 0 <= k < |files| && k <= FirstFailure(probes) ==> others[k] == probes[k]
    ensures CheckCompatibility(files, available, probes) == CheckCompatibility(files, available, others)
  {
    if |files| >= 2 && available {
      assert others[0] == probes[0];
      if probes[0].Some? {
        assert SurveyFrom(files, probes, probes[0].value, 1) == SurveyFrom(files, others, probes[0].value, 1) by {
          SurveyAgrees(files, probes, others, probes[0].value, 1);
        }
      }
    }
  }

  lemma {:induction false} SurveyStopsAt(files: seq<string>, probes: seq<Option<VideoInfo>>, first: VideoInfo, i: nat, j: nat)
    requires |probes| == |files| && i <= j < |files| && probes[j].None?
    requires forall k :: i <= k < j ==> probes[k].Some?
    ensures SurveyFrom(files, probes, first, i) == Unreadable(files[j])
    decreases j - i
  {
    if i < j {
      SurveyStopsAt(files, probes, first, i + 1, j);
    }
  }

  lemma {:induction false} SurveyLists(files: seq<string>, probes: seq<Option<VideoInfo>>, first: VideoInfo, i: nat)
    requires |probes| == |files|
    requires forall k :: i <= k < |files| ==> probes[k].Some?
    ensures SurveyFrom(files, probes, first, i).Listed?
    ensures var ms := SurveyFrom(files, probes, first, i).mismatches;
      (forall e :: e in ms <==> exists k :: i <= k < |files| && probes[k].value != first && e == (k + 1, Basename(files[k]))) &&
      (forall a :: 0 <= a < |ms| ==> ms[a].0 > i) &&
      (forall a, b :: 0 <= a < b < |ms| ==> ms[a].0 < ms[b].0)
    decreases |files| - i
  {
    if i < |files| {
      SurveyLists(files, probes, first, i + 1);
    }
  }

  /** The verdict when some file cannot be read: the first file gets its
      own message, a later one the general message naming its path. */
  lemma UnreadableVerdict(files: seq<string>, probes: seq<Option<VideoInfo>>, j: nat)
    requires |probes| == |files| >= 2 && j == FirstFailure(probes) < |files|
    ensures CheckCompatibility(files, true, probes) ==
      (false, if j == 0 then FirstUnreadableMessage(files[0]) else UnreadableMessage(files[j]))
  {
    if j > 0 {
      SurveyStopsAt(files, probes, probes[0].value, 1, j);
    }
  }

  /** When every file can be read, a file is listed exactly when one of its
      four fields differs from the first file's, under its 1-based position,
      in list order; the files are compatible exactly when none is listed. */
  lemma ReadableVerdict(files: seq<string>, probes: seq<Option<VideoInfo>>)
    requires |probes| == |files| >= 2 && FirstFailure(probes) == |files|
    ensures SurveyFrom(files, probes, probes[0].value, 1).Listed?
    ensures var first := probes[0].value;
      var ms := SurveyFrom(files, probes, first, 1).mismatches;
      (forall e :: e in ms <==> exists k :: 1 <= k < |files| && probes[k].value != first && e == (k + 1, Basename(files[k]))) &&
      (forall a, b :: 0 <= a < b < |ms| ==> ms[a].0 < ms[b].0) &&
      (CheckCompatibility(files, true, probes).0 <==> forall k :: 0 <= k < |files| ==> probes[k] == probes[0]) &&
      (ms != [] ==> CheckCompatibility(files, true, probes).1 == IncompatibleHeader + MismatchLines(ms) + IncompatibleAdvice)
  {
    var first := probes[0].value;
    SurveyLists(files, probes, first, 1);
    var ms := SurveyFrom(files, probes, first, 1).mismatches;
    NoMismatchIff(files, probes, first, ms);
  }

  /** No file is listed exactly when every probe equals the first. */
  lemma NoMismatchIff(files: seq<string>, probes: seq<Option<VideoInfo>>, first: VideoInfo, ms: seq<(nat, string)>)
    requires |probes| == |files| >= 1 && probes[0] == Some(first)
    requires forall k :: 0 <= k < |files| ==> probes[k].Some?
    requires forall e :: e in ms <==> exists k :: 1 <= k < |files| && probes[k].value != first && e == (k + 1, Basename(files[k]))
    ensures ms == [] <==> forall k :: 0 <= k < |files| ==> probes[k] == probes[0]
  {
    if ms == [] {
      forall k | 1 <= k < |files| ensures probes[k] == probes[0] {
        assert (k + 1, Basename(files[k])) !in ms;
      }
    } else {
      assert ms[0] in ms;
      var k :| 1 <= k < |files| && probes[k].value != first && ms[0] == (k + 1, Basename(files[k]));
      assert probes[k] != probes[0];
    }
  }

  /** The message starts with "无法读取" exactly when, with ffmpeg present
      and at least two files, some file could not be probed. */
  lemma MessagePrefixes(path: string, lines: string)
    ensures StartsWith(FirstUnreadableMessage(path), UnreadablePrefix)
    ensures StartsWith(UnreadableMessage(path), UnreadablePrefix)
    ensures !StartsWith(NoFfmpegForCheck, UnreadablePrefix)
    ensures !StartsWith(IncompatibleHeader + lines + IncompatibleAdvice, UnreadablePrefix)
    ensures !StartsWith("", UnreadablePrefix)
  {
    assert FirstUnreadableMessage(path)[..|UnreadablePrefix|] == UnreadablePrefix;
    assert UnreadableMessage(path)[..|UnreadablePrefix|] == UnreadablePrefix;
    assert NoFfmpegForCheck[..|UnreadablePrefix|][0] != UnreadablePrefix[0];
    assert (IncompatibleHeader + lines + IncompatibleAdvice)[..|UnreadablePrefix|][0] != UnreadablePrefix[0];
  }

  lemma UnreadableIffPrefix(files: seq<string>, available: bool, probes: seq<Option<VideoInfo>>)
    requires |probes| == |files|
    ensures StartsWith(CheckCompatibility(files, available, probes).1, UnreadablePrefix) <==>
      |files| >= 2 && available && FirstFailure(probes) < |files|
  {
    if |files| >= 2 && available {
      if FirstFailure(probes) < |files| {
        UnreadableVerdict(files, probes, FirstFailure(probes));
        MessagePrefixes(files[FirstFailure(probes)], "");
        MessagePrefixes(files[0], "");
      } else {
        ReadableVerdict(files, probes);
        var ms := SurveyFrom(files, probes, probes[0].value, 1).mismatches;
        MessagePrefixes("", MismatchLines(ms));
      }
    } else {
      MessagePrefixes("", "");
    }
  }

  // ---------------------------------------------------------------------
  // start_merge
  // ---------------------------------------------------------------------

  /** How `start_merge` ends: one of the error dialogs, the user declining
      the compatibility warning, or the worker started (after creating the
      output directory when it was missing). */
  datatype StartOutcome =
    | TooFewFiles
    | NoOutputPath
    | NoFfmpeg
    | CannotRead(message: string)
    | Declined
    | CannotCreateDir(reason: string)
    | Started(createdDir: bool)

  /** The error dialog text, when there is one. */
  function StartError(o: StartOutcome): (r: Option<string>)
    ensures r.None? <==> o.Declined? || o.Started?
  {
    match o
    case TooFewFiles => Some("请至少选择两个视频文件")
    case NoOutputPath => Some("请设置输出文件路径")
    case NoFfmpeg => Some("未找到ffmpeg，请安装ffmpeg以使用视频合并功能")
    case CannotRead(m) => Some(m)
    case CannotCreateDir(e) => Some("无法创建输出目录: " + e)
    case _ => None
  }

  /** The checks of `start_merge` in their order. `accepts` is the answer
      to the compatibility warning, `dirExists` whether the output's
      directory exists and `makedirsError` how creating it failed. */
  function StartMerge(files: seq<string>, output: string, available: bool, probes: seq<Option<VideoInfo>>,
                      accepts: bool, dirExists: bool, makedirsError: Option<string>): StartOutcome
    requires |probes| == |files|
  {
    if |files| < 2 then TooFewFiles
    else if output == "" then NoOutputPath
    else if !available then NoFfmpeg
    else
      var (compatible, message) := CheckCompatibility(files, available, probes);
      if !compatible && StartsWith(message, UnreadablePrefix) then CannotRead(message)
      else if !compatible && !accepts then Declined
      else if Dirname(output) != "" && !dirExists then
        (if makedirsError.Some? then CannotCreateDir(makedirsError.value) else Started(true))
      else Started(false)
  }

  /** `_update_merge_button_state` (the definition that is in effect). */
  predicate MergeEnabled(files: seq<string>, output: string, available: bool, processing: bool)
  {
    |files| > 1 && output != "" && available && !processing
  }

  /** An enabled merge button is exactly what gets a click past the first
      three checks of `start_merge`. */
  lemma EnabledPassesFirstChecks(files: seq<string>, output: string, available: bool, probes: seq<Option<VideoInfo>>,
                                 accepts: bool, dirExists: bool, makedirsError: Option<string>)
    requires |probes| == |files|
    ensures var o := StartMerge(files, output, available, probes, accepts, dirExists, makedirsError);
      MergeEnabled(files, output, available, false) <==> !(o.TooFewFiles? || o.NoOutputPath? || o.NoFfmpeg?)
  {
  }

  /** A worker is started only with two or more files, an output path,
      ffmpeg present and every file probed; with every stream alike, or the
      warning accepted; and the directory was created exactly when it was
      missing. */
  lemma StartedMeans(files: seq<string>, output: string, available: bool, probes: seq<Option<VideoInfo>>,
                     accepts: bool, dirExists: bool, makedirsError: Option<string>)
    requires |probes| == |files|
    requires StartMerge(files, output, available, probes, accepts, dirExists, makedirsError).Started?
    ensures MergeEnabled(files, output, available, false)
    ensures FirstFailure(probes) == |files|
    ensures accepts || forall k :: 0 <= k < |files| ==> probes[k] == probes[0]
    ensures StartMerge(files, output, available, probes, accepts, dirExists, makedirsError).createdDir <==>
      Dirname(output) != "" && !dirExists
  {
    UnreadableIffPrefix(files, available, probes);
    ReadableVerdict(files, probes);
  }

  /** The warning is put to the user only when every file was read and
      some stream differs; declining it stops the merge. */
  lemma DeclinedWhen(files: seq<string>, output: string, available: bool, probes: seq<Option<VideoInfo>>,
                     dirExists: bool, makedirsError: Option<string>)
    requires |probes| == |files|
    ensures var (compatible, message) := CheckCompatibility(files, available, probes);
      StartMerge(files, output, available, probes, false, dirExists, makedirsError).Declined? <==>
      MergeEnabled(files, output, available, false) && !compatible && !StartsWith(message, UnreadablePrefix)
  {
  }

  lemma DeclinedMeans(files: seq<string>, output: string, available: bool, probes: seq<Option<VideoInfo>>,
                      dirExists: bool, makedirsError: Option<string>)
    requires |probes| == |files|
    ensures StartMerge(files, output, available, probes, false, dirExists, makedirsError).Declined? <==>
      MergeEnabled(files, output, available, false) && FirstFailure(probes) == |files| &&
      exists k :: 0 <= k < |files| && probes[k] != probes[0]
  {
    var (compatible, message) := CheckCompatibility(files, available, probes);
    DeclinedWhen(files, output, available, probes, dirExists, makedirsError);
    assert MergeEnabled(files, output, available, false) ==>
      (StartsWith(message, UnreadablePrefix) <==> FirstFailure(probes) < |files|) by {
      UnreadableIffPrefix(files, available, probes);
    }
    if MergeEnabled(files, output, available, false) && FirstFailure(probes) == |files| {
      assert compatible <==> forall k :: 0 <= k < |files| ==> probes[k] == probes[0] by {
        ReadableVerdict(files, probes);
      }
      assert (exists k :: 0 <= k < |files| && probes[k] != probes[0]) <==> !compatible;
    }
  }
}
