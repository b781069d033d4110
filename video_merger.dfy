/** The state of the video merger window (video_merger.py) and the
    handlers that change it: the list of selected files, the output path,
    the `processing` flag, what the ffmpeg check found, the drag source and
    the status line. Widgets, dialogs and threads are not modelled: what a
    dialog or the file system answers is a parameter, and the tree view is
    the list itself, its item ids being the positions in the list.

    `_update_file_list` reads the size of every listed file without a
    `try`, so it raises when one of them has gone from the disk. The
    handlers that call it take `sizesReadable`: whether those reads all
    succeed. When they do not, the edit of the list stays and what the
    handler does after the refresh is skipped. */
module VideoMergerApp {
  import opened Text
  import opened Paths
  import opened FileList
  import opened NaturalSort
  import opened MergeCheck

  const ReadyText: string := "准备就绪，请添加视频文件"
  const VersionUnknown: string := "未检测到"
  const NoFfmpegWarning: string := "警告: 未找到ffmpeg，请安装ffmpeg以使用视频合并功能"

  /** The ffmpeg label after `_check_ffmpeg_available`: the version when
      the first line of `ffmpeg -version` names one, "installed" when
      ffmpeg ran but named none, "not found" when it could not be run. */
  function FfmpegStatusText(launched: bool, version: Option<string>): (r: string)
    ensures !launched <==> r == "ffmpeg: 未检测到"
    ensures launched && version.Some? ==> r == "ffmpeg: v" + version.value
  {
    if !launched then "ffmpeg: 未检测到"
    else if version.Some? then
      assert ("ffmpeg: v" + version.value)[8] == 'v' != "ffmpeg: 未检测到"[8];
      "ffmpeg: v" + version.value
    else "ffmpeg: 已安装"
  }

  function AddedText(n: nat): string { "已添加 " + NatToString(n) + " 个视频文件" }
  function RemovedText(n: nat): string { "已移除 " + NatToString(n) + " 个视频文件" }

  /** The status line `_reset_ui` leaves. */
  function LoadedText(files: seq<string>): (r: string)
    ensures files == [] <==> r == ReadyText
  {
    if files != [] then
      assert ("已加载 " + NatToString(|files|) + " 个视频文件")[0] != ReadyText[0];
      "已加载 " + NatToString(|files|) + " 个视频文件"
    else ReadyText
  }

  class VideoMerger {
    var selectedFiles: seq<string>
    var outputPath: string
    var processing: bool
    var ffmpegAvailable: bool
    var ffmpegVersion: string
    var ffmpegStatus: string
    var dragItem: Option<nat>
    var status: string

    /** The list never holds a file twice. */
    predicate Valid()
      reads this
    {
      Distinct(selectedFiles)
    }

    /** `_update_merge_button_state` (the definition at line 927). */
    predicate MergeButtonEnabled()
      reads this
    {
      MergeEnabled(selectedFiles, outputPath, ffmpegAvailable, processing)
    }

    /** `__init__` followed by `_check_ffmpeg_available`: `launched` says
        whether `ffmpeg -version` could be run, `stdout` is what it printed. */
    constructor (launched: bool, stdout: string)
      ensures Valid()
      ensures selectedFiles == [] && outputPath == "" && !processing && dragItem == None
      ensures ffmpegAvailable == launched
      ensures ffmpegStatus == FfmpegStatusText(launched, ParseVersion(stdout))
      ensures ffmpegVersion == (if launched && ParseVersion(stdout).Some? then ParseVersion(stdout).value else VersionUnknown)
      ensures status == if launched then ReadyText else NoFfmpegWarning
    {
      selectedFiles := [];
      outputPath := "";
      processing := false;
      dragItem := None;
      status := ReadyText;
      ffmpegVersion := VersionUnknown;
      if launched {
        ffmpegAvailable := true;
        var version := ParseVersion(stdout);
        if version.Some? {
          ffmpegVersion := version.value;
        }
        ffmpegStatus := FfmpegStatusText(true, version);
      } else {
        ffmpegAvailable := false;
        ffmpegStatus := FfmpegStatusText(false, None);
        status := NoFfmpegWarning;
      }
    }

    /** `add_videos` with the paths the file dialog returned. A refresh
        that raises is caught by the handler's `except`, after the appends
        and before the output path and the status are set. */
    method AddVideos(paths: seq<string>, sizesReadable: bool)
      requires Valid()
      modifies this
      ensures Valid()
      ensures paths == [] ==> selectedFiles == old(selectedFiles) && outputPath == old(outputPath) && status == old(status)
      ensures paths != [] ==> selectedFiles == AddNew(old(selectedFiles), paths)
      ensures paths != [] && sizesReadable ==>
        && status == AddedText(|selectedFiles| - |old(selectedFiles)|)
        && outputPath == (if old(outputPath) == "" && selectedFiles != [] then DefaultOutput(selectedFiles[0]) else old(outputPath))
      ensures paths != [] && !sizesReadable ==> outputPath == old(outputPath) && status == old(status)
      ensures processing == old(processing) && ffmpegAvailable == old(ffmpegAvailable) && dragItem == old(dragItem)
      ensures ffmpegVersion == old(ffmpegVersion) && ffmpegStatus == old(ffmpegStatus)
    {
      if paths != [] {
        AddNewProperties(selectedFiles, paths);
        var added;
        selectedFiles, added := AddFiles(selectedFiles, paths);
        if sizesReadable {
          if outputPath == "" && selectedFiles != [] {
            outputPath := DefaultOutput(selectedFiles[0]);
          }
          status := AddedText(added);
        }
      }
    }

    /** `remove_selected` with the positions selected in the tree. A
        refresh that raises leaves the status as it was. */
    method RemoveSelected(selection: seq<nat>, sizesReadable: bool)
      requires Valid() && Distinct(selection)
      modifies this
      ensures Valid()
      ensures selection == [] ==> selectedFiles == old(selectedFiles) && status == old(status)
      ensures selection != [] ==> selectedFiles == Without(old(selectedFiles), Positions(selection))
      ensures selection != [] ==> status == if sizesReadable then RemovedText(|selection|) else old(status)
      ensures outputPath == old(outputPath) && processing == old(processing) && ffmpegAvailable == old(ffmpegAvailable)
      ensures dragItem == old(dragItem) && ffmpegVersion == old(ffmpegVersion) && ffmpegStatus == old(ffmpegStatus)
    {
      if selection != [] {
        EditsKeepDistinct(selectedFiles);
        selectedFiles := RemoveAt(selectedFiles, selection);
        if sizesReadable {
          status := RemovedText(|selection|);
        }
      }
    }

    /** `_on_item_click`: the row under the pointer becomes the drag source. */
    method OnItemClick(item: Option<nat>)
      modifies this
      ensures dragItem == if item.Some? then item else old(dragItem)
      ensures selectedFiles == old(selectedFiles) && outputPath == old(outputPath) && status == old(status)
      ensures processing == old(processing) && ffmpegAvailable == old(ffmpegAvailable)
      ensures ffmpegVersion == old(ffmpegVersion) && ffmpegStatus == old(ffmpegStatus)
    {
      if item.Some? {
        dragItem := item;
      }
    }

    /** `_on_item_drag` with the row under the pointer. A drag source that
        no longer names a file makes `pop` raise before anything changes; a
        refresh that raises leaves the drag source at the old row. */
    method OnItemDrag(target: Option<nat>, sizesReadable: bool)
      requires Valid()
      requires target.Some? ==> target.value < |selectedFiles|
      modifies this
      ensures Valid()
      ensures var moves := old(dragItem).Some? && target.Some? && target != old(dragItem) && old(dragItem).value < |old(selectedFiles)|;
        && (moves ==> selectedFiles == Dragged(old(selectedFiles), old(dragItem).value, target.value)
                      && dragItem == if sizesReadable then Some(DropIndex(old(dragItem).value, target.value)) else old(dragItem))
        && (!moves ==> selectedFiles == old(selectedFiles) && dragItem == old(dragItem))
      ensures outputPath == old(outputPath) && status == old(status) && processing == old(processing)
      ensures ffmpegAvailable == old(ffmpegAvailable) && ffmpegVersion == old(ffmpegVersion) && ffmpegStatus == old(ffmpegStatus)
    {
      if dragItem.Some? && target.Some? && target != dragItem {
        var drag := dragItem.value;
        if drag < |selectedFiles| {
          EditsKeepDistinct(selectedFiles);
          selectedFiles := Dragged(selectedFiles, drag, target.value);
          if sizesReadable {
            dragItem := Some(DropIndex(drag, target.value));
          }
        }
      }
    }

    /** `move_selected_up` with the positions selected in the tree. A
        refresh that raises skips only the reselection of the moved rows,
        which is not modelled. */
    method MoveSelectedUp(selection: seq<nat>)
      requires Valid() && Distinct(selection)
      requires forall k :: 0 <= k < |selection| ==> selection[k] < |selectedFiles|
      modifies this
      ensures Valid()
      ensures selectedFiles == SelectionMovedUp(old(selectedFiles), selection)
      ensures outputPath == old(outputPath) && status == old(status) && processing == old(processing) && dragItem == old(dragItem)
      ensures ffmpegAvailable == old(ffmpegAvailable) && ffmpegVersion == old(ffmpegVersion) && ffmpegStatus == old(ffmpegStatus)
    {
      if selection != [] {
        var s := Ascending(selection);
        AscendingStrict(selection);
        if s[0] != 0 {
          assert s[|s| - 1] in multiset(selection);
          EditsKeepDistinct(selectedFiles);
          selectedFiles := MoveUp(selectedFiles, s);
        }
      }
    }

    /** `move_selected_down` with the positions selected in the tree; a
        refresh that raises skips only the reselection, as for moving up. */
    method MoveSelectedDown(selection: seq<nat>)
      requires Valid() && Distinct(selection)
      requires forall k :: 0 <= k < |selection| ==> selection[k] < |selectedFiles|
      modifies this
      ensures Valid()
      ensures selectedFiles == SelectionMovedDown(old(selectedFiles), selection)
      ensures outputPath == old(outputPath) && status == old(status) && processing == old(processing) && dragItem == old(dragItem)
      ensures ffmpegAvailable == old(ffmpegAvailable) && ffmpegVersion == old(ffmpegVersion) && ffmpegStatus == old(ffmpegStatus)
    {
      if selection != [] {
        var s := Descending(selection);
        DescendingStrict(selection);
        if s[0] != |selectedFiles| - 1 {
          assert s[0] in multiset(selection);
          EditsKeepDistinct(selectedFiles);
          selectedFiles := MoveDown(selectedFiles, s);
        }
      }
    }

    /** `sort_files_by_name`; a refresh that raises leaves the status as
        it was. */
    method SortFilesByName(sizesReadable: bool)
      requires Valid()
      modifies this
      ensures Valid()
      ensures |old(selectedFiles)| <= 1 ==> selectedFiles == old(selectedFiles) && status == old(status)
      ensures |old(selectedFiles)| > 1 ==> selectedFiles == SortedByName(old(selectedFiles))
      ensures |old(selectedFiles)| > 1 ==> status == if sizesReadable then "文件已按名称排序" else old(status)
      ensures outputPath == old(outputPath) && processing == old(processing) && dragItem == old(dragItem)
      ensures ffmpegAvailable == old(ffmpegAvailable) && ffmpegVersion == old(ffmpegVersion) && ffmpegStatus == old(ffmpegStatus)
    {
      if |selectedFiles| > 1 {
        SortedByNamePermutation(selectedFiles);
        DistinctWithin(SortedByName(selectedFiles), selectedFiles);
        selectedFiles := SortedByName(selectedFiles);
        if sizesReadable {
          status := "文件已按名称排序";
        }
      }
    }

    /** `clear_file_list`; `confirmed` is the answer to the question. The
        refresh of the emptied list reads no size, so it cannot raise. */
    method ClearFileList(confirmed: bool)
      requires Valid()
      modifies this
      ensures Valid()
      ensures old(selectedFiles) != [] && confirmed ==> selectedFiles == [] && status == "文件列表已清空"
      ensures old(selectedFiles) == [] || !confirmed ==> selectedFiles == old(selectedFiles) && status == old(status)
      ensures outputPath == old(outputPath) && processing == old(processing) && dragItem == old(dragItem)
      ensures ffmpegAvailable == old(ffmpegAvailable) && ffmpegVersion == old(ffmpegVersion) && ffmpegStatus == old(ffmpegStatus)
    {
      if selectedFiles != [] && confirmed {
        selectedFiles := [];
        status := "文件列表已清空";
      }
    }

    /** `browse_output` with the path the save dialog returned. */
    method BrowseOutput(chosen: string)
      modifies this
      ensures outputPath == if chosen != "" then chosen else old(outputPath)
      ensures selectedFiles == old(selectedFiles) && status == old(status) && processing == old(processing) && dragItem == old(dragItem)
      ensures ffmpegAvailable == old(ffmpegAvailable) && ffmpegVersion == old(ffmpegVersion) && ffmpegStatus == old(ffmpegStatus)
    {
      if chosen != "" {
        outputPath := chosen;
      }
    }

    /** Typing into the output entry, which is bound to `output_path_var`:
        any text, the empty one included, becomes the output path. */
    method TypeOutput(text: string)
      modifies this
      ensures outputPath == text
      ensures selectedFiles == old(selectedFiles) && status == old(status) && processing == old(processing) && dragItem == old(dragItem)
      ensures ffmpegAvailable == old(ffmpegAvailable) && ffmpegVersion == old(ffmpegVersion) && ffmpegStatus == old(ffmpegStatus)
    {
      outputPath := text;
    }

    /** `start_merge`: the checks in order, each failure shown and followed
        by `_reset_ui`; when they all pass the worker is started. `probes`
        are the ffprobe answers for the files, `accepts` the answer to the
        compatibility warning, `dirExists` whether the output directory
        exists and `makedirsError` what creating it raised. */
    method StartMerge(probes: seq<Option<VideoInfo>>, accepts: bool, dirExists: bool, makedirsError: Option<string>)
      returns (outcome: StartOutcome)
      requires Valid() && |probes| == |selectedFiles|
      modifies this
      ensures Valid()
      ensures selectedFiles == old(selectedFiles) && outputPath == old(outputPath) && dragItem == old(dragItem)
      ensures outcome == MergeCheck.StartMerge(selectedFiles, outputPath, ffmpegAvailable, probes, accepts, dirExists, makedirsError)
      ensures outcome.Started? ==> processing && status == "准备合并视频..."
      ensures !outcome.Started? ==> !processing && status == LoadedText(selectedFiles)
      ensures ffmpegAvailable == old(ffmpegAvailable) && ffmpegVersion == old(ffmpegVersion) && ffmpegStatus == old(ffmpegStatus)
    {
      outcome := MergeCheck.StartMerge(selectedFiles, outputPath, ffmpegAvailable, probes, accepts, dirExists, makedirsError);
      if outcome.Started? {
        status := "准备合并视频...";
        processing := true;
      } else {
        ResetUi();
      }
    }

    /** `cancel_merge`: clears the flag the worker polls. */
    method CancelMerge()
      modifies this
      ensures !processing && status == "正在取消合并..."
      ensures selectedFiles == old(selectedFiles) && outputPath == old(outputPath) && dragItem == old(dragItem)
      ensures ffmpegAvailable == old(ffmpegAvailable) && ffmpegVersion == old(ffmpegVersion) && ffmpegStatus == old(ffmpegStatus)
    {
      processing := false;
      status := "正在取消合并...";
    }

    /** `_reset_ui`, also run after every merge: the merge button it sets
        agrees with `_update_merge_button_state`. */
    method ResetUi()
      modifies this
      ensures !processing && status == LoadedText(selectedFiles)
      ensures MergeButtonEnabled() <==> |selectedFiles| > 1 && outputPath != "" && ffmpegAvailable
      ensures selectedFiles == old(selectedFiles) && outputPath == old(outputPath) && dragItem == old(dragItem)
      ensures ffmpegAvailable == old(ffmpegAvailable) && ffmpegVersion == old(ffmpegVersion) && ffmpegStatus == old(ffmpegStatus)
    {
      processing := false;
      status := LoadedText(selectedFiles);
    }
  }
}
