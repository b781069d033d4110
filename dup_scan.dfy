/** The worker side of the duplicate-filename scan (file_duplicate_checker.py):
    the counting pass, the name -> directories index built during the
    second walk, and the duplicate filter and sort.

    The directory walk is an input: one `WalkStep` per directory that
    `os.walk` yields, in walk order, or `Raise` where the walk raises.
    The cancellation flag `scanning` is read by the worker at fixed
    checkpoints and is only ever cleared while a scan runs, so it is
    modelled by one number `cancelAt`: the worker's checkpoint number `k`
    sees the flag cleared exactly when `k >= cancelAt`.  Checkpoints are
    numbered in the order the worker reaches them: after directory `i` of
    the counting walk is checkpoint `i`; the check that follows the count
    is `|countWalk|`; before file `j` of the second walk is `c2 + j`, and
    after that walk `c2 + n`, where `c2 == |countWalk| + 1` and `n` is the
    number of files walked. */
module DuplicateScan {
  import opened Text
  import opened Sorting

  type Dir = string
  type FileName = string

  datatype WalkStep = Visit(dir: Dir, files: seq<FileName>) | Raise(permission: bool)

  /** How the indexing walk ended. */
  datatype Stop = Completed | Cancelled | Raised(permission: bool)

  /** What the scan thread hands back to the interface thread. */
  datatype ScanOutcome =
    | ScanCancelled                 // the UI is only reset
    | CountError                    // counting raised: an error box, then the UI is reset
    | ScanError(permission: bool)   // the second walk raised: error box, failure status, reset
    | Found(duplicates: seq<(FileName, seq<Dir>)>, total: nat)

  // ----- The walk, flattened -----

  /** Each file name of a directory paired with the directory. */
  function Tag(d: Dir, fs: seq<FileName>): seq<(Dir, FileName)>
  {
    seq(|fs|, i requires 0 <= i < |fs| => (d, fs[i]))
  }

  lemma TagSnoc(d: Dir, fs: seq<FileName>, j: nat)
    requires j < |fs|
    ensures Tag(d, fs[..j + 1]) == Tag(d, fs[..j]) + [(d, fs[j])]
  {
  }

  function StepFiles(s: WalkStep): seq<(Dir, FileName)>
  {
    match s
    case Visit(d, fs) => Tag(d, fs)
    case Raise(_) => []
  }

  /** Every (directory, file name) of the steps, in walk order. */
  function Flatten(steps: seq<WalkStep>): seq<(Dir, FileName)>
  {
    if steps == [] then [] else Flatten(steps[..|steps| - 1]) + StepFiles(steps[|steps| - 1])
  }

  /** The position of the first step at which the walk raises, or `|walk|`. */
  function FirstRaise(walk: seq<WalkStep>): (k: nat)
    ensures k <= |walk|
    ensures forall i :: 0 <= i < k ==> walk[i].Visit?
    ensures k < |walk| ==> walk[k].Raise?
  {
    if walk == [] then 0 else if walk[0].Raise? then 0 else 1 + FirstRaise(walk[1..])
  }

  /** The files the walk reports before it raises. */
  function WalkedFiles(walk: seq<WalkStep>): seq<(Dir, FileName)>
  {
    Flatten(walk[..FirstRaise(walk)])
  }

  function RaisedAt(walk: seq<WalkStep>): Option<bool>
  {
    var k := FirstRaise(walk);
    if k < |walk| then Some(walk[k].permission) else None
  }

  lemma {:induction false} FlattenPrefix(walk: seq<WalkStep>, i: nat, k: nat)
    requires i <= k <= |walk|
    ensures |Flatten(walk[..i])| <= |Flatten(walk[..k])|
    ensures Flatten(walk[..k])[..|Flatten(walk[..i])|] == Flatten(walk[..i])
    decreases k - i
  {
    if i < k {
      FlattenPrefix(walk, i, k - 1);
      var fi, fk1 := Flatten(walk[..i]), Flatten(walk[..k - 1]);
      assert Flatten(walk[..k]) == fk1 + StepFiles(walk[k - 1]) by {
        assert walk[..k][..k - 1] == walk[..k - 1];
      }
      assert (fk1 + StepFiles(walk[k - 1]))[..|fi|] == fk1[..|fi|];
    }
  }

  lemma FlattenVisit(walk: seq<WalkStep>, i: nat)
    requires i < |walk| && walk[i].Visit?
    ensures |Flatten(walk[..i + 1])| == |Flatten(walk[..i])| + |walk[i].files|
  {
    assert walk[..i + 1][..i] == walk[..i];
  }

  /** Directory `i`, met before the walk raises, adds its files after those
      of the directories before it. */
  lemma DirWhole(walk: seq<WalkStep>, i: nat)
    requires i < FirstRaise(walk)
    ensures Flatten(walk[..i + 1]) == Flatten(walk[..i]) + Tag(walk[i].dir, walk[i].files)
    ensures |Flatten(walk[..i + 1])| <= |WalkedFiles(walk)|
    ensures WalkedFiles(walk)[..|Flatten(walk[..i + 1])|] == Flatten(walk[..i + 1])
  {
    assert walk[..i + 1][..i] == walk[..i];
    FlattenPrefix(walk, i + 1, FirstRaise(walk));
  }

  /** A prefix of `w` that is `a + t` holds `a` and the first `k` of `t`. */
  lemma PrefixOfJoin<T>(w: seq<T>, a: seq<T>, t: seq<T>, k: nat)
    requires |a| + |t| <= |w| && w[..|a| + |t|] == a + t && k <= |t|
    ensures w[..|a| + k] == a + t[..k] && w[..|a|] == a
  {
    assert w[..|a| + k] == (a + t)[..|a| + k];
    assert w[..|a|] == (a + t)[..|a|];
  }

  lemma TagPrefix(d: Dir, fs: seq<FileName>, k: nat)
    requires k <= |fs|
    ensures Tag(d, fs)[..k] == Tag(d, fs[..k])
  {
  }

  /** The first `k` files of directory `i` follow the files of the directories before it. */
  lemma DirInWalk(walk: seq<WalkStep>, i: nat, k: nat)
    requires i < FirstRaise(walk) && k <= |walk[i].files|
    ensures |Flatten(walk[..i + 1])| == |Flatten(walk[..i])| + |walk[i].files| <= |WalkedFiles(walk)|
    ensures WalkedFiles(walk)[..|Flatten(walk[..i])| + k]
         == WalkedFiles(walk)[..|Flatten(walk[..i])|] + Tag(walk[i].dir, walk[i].files[..k])
    ensures WalkedFiles(walk)[..|Flatten(walk[..i + 1])|] == Flatten(walk[..i + 1])
  {
    DirWhole(walk, i);
    PrefixOfJoin(WalkedFiles(walk), Flatten(walk[..i]), Tag(walk[i].dir, walk[i].files), k);
    TagPrefix(walk[i].dir, walk[i].files, k);
  }

  // ----- Phase 1: _count_total_files -----

  /** The value `_count_total_files` returns: -1 when the cancellation is seen
      after some directory or the walk raises, otherwise the number of files. */
  function CountTotal(walk: seq<WalkStep>, cancelAt: nat): int
  {
    if cancelAt < FirstRaise(walk) || FirstRaise(walk) < |walk| then -1
    else |WalkedFiles(walk)|
  }

  /** `_count_total_files`: adds up the file counts directory by directory and
      checks the flag after each; `failed` is set when the walk raised (the
      source then shows an error box before returning -1). */
  method CountTotalFiles(walk: seq<WalkStep>, cancelAt: nat) returns (total: int, failed: bool)
    ensures total == CountTotal(walk, cancelAt)
    ensures failed <==> cancelAt >= FirstRaise(walk) && FirstRaise(walk) < |walk|
    ensures total == -1 || total == |Flatten(walk)|
  {
    total, failed := 0, false;
    var i := 0;
    while i < |walk|
      invariant i <= FirstRaise(walk) && i <= cancelAt
      invariant total == |Flatten(walk[..i])|
    {
      match walk[i]
      case Raise(_) =>
        assert i == FirstRaise(walk);
        total, failed := -1, true;
        return;
      case Visit(_, files) =>
        assert i < FirstRaise(walk);
        FlattenVisit(walk, i);
        total := total + |files|;
        if i >= cancelAt {
          total := -1;
          return;
        }
      i := i + 1;
    }
    assert walk[..i] == walk;
  }

  // ----- Phase 2: the name -> directories index -----

  /** The directories, in walk order, in which a file called `n` was walked. */
  function DirsOf(pairs: seq<(Dir, FileName)>, n: FileName): seq<Dir>
  {
    if pairs == [] then []
    else
      var last := pairs[|pairs| - 1];
      DirsOf(pairs[..|pairs| - 1], n) + (if last.1 == n then [last.0] else [])
  }

  /** The distinct file names, in the order they were first walked. */
  function Names(pairs: seq<(Dir, FileName)>): seq<FileName>
  {
    if pairs == [] then []
    else
      var last := pairs[|pairs| - 1];
      var before := Names(pairs[..|pairs| - 1]);
      if last.1 in before then before else before + [last.1]
  }

  lemma {:induction false} NamesAreWalked(pairs: seq<(Dir, FileName)>, n: FileName)
    ensures n in Names(pairs) <==> DirsOf(pairs, n) != []
  {
    if pairs != [] {
      NamesAreWalked(pairs[..|pairs| - 1], n);
    }
  }

  lemma {:induction false} NamesDistinct(pairs: seq<(Dir, FileName)>)
    ensures forall i, j :: 0 <= i < j < |Names(pairs)| ==> Names(pairs)[i] != Names(pairs)[j]
  {
    if pairs != [] {
      NamesDistinct(pairs[..|pairs| - 1]);
    }
  }

  /** The dict `file_dict`: its keys in insertion order, and the list of
      directories stored under each key. */
  datatype FileDict = FileDict(keys: seq<FileName>, dirs: map<FileName, seq<Dir>>)

  /** `file_dict[filename].append(root_dir)`, or `file_dict[filename] = [root_dir]`
      when the name is new (lines 277-281). */
  function Add(dict: FileDict, dir: Dir, filename: FileName): FileDict
  {
    if filename in dict.dirs then FileDict(dict.keys, dict.dirs[filename := dict.dirs[filename] + [dir]])
    else FileDict(dict.keys + [filename], dict.dirs[filename := [dir]])
  }

  /** The dict after the files `pairs` were added to `dict` in turn. */
  function AddAll(dict: FileDict, pairs: seq<(Dir, FileName)>): FileDict
  {
    if pairs == [] then dict
    else
      var (d, f) := pairs[|pairs| - 1];
      Add(AddAll(dict, pairs[..|pairs| - 1]), d, f)
  }

  /** The dict built from an empty one by the files `pairs`. */
  function Recorded(pairs: seq<(Dir, FileName)>): FileDict
  {
    AddAll(FileDict([], map[]), pairs)
  }

  lemma {:induction false} AddAllAppend(dict: FileDict, p: seq<(Dir, FileName)>, q: seq<(Dir, FileName)>)
    ensures AddAll(dict, p + q) == AddAll(AddAll(dict, p), q)
    decreases |q|
  {
    if q == [] {
      assert p + q == p;
    } else {
      AddAllAppend(dict, p, q[..|q| - 1]);
      assert (p + q)[..|p + q| - 1] == p + q[..|q| - 1];
    }
  }

  /** The dict agrees with the reference definitions: its keys are the
      distinct walked names in first-seen order, and the entry for a name
      holds exactly the directories in which it was walked, in walk order. */
  lemma {:induction false} RecordedIsIndex(pairs: seq<(Dir, FileName)>)
    ensures Recorded(pairs).keys == Names(pairs)
    ensures forall n :: n in Recorded(pairs).dirs <==> DirsOf(pairs, n) != []
    ensures forall n :: n in Recorded(pairs).dirs ==> Recorded(pairs).dirs[n] == DirsOf(pairs, n)
  {
    if pairs != [] {
      var init := pairs[..|pairs| - 1];
      RecordedIsIndex(init);
      forall n ensures n in Names(init) <==> DirsOf(init, n) != [] {
        NamesAreWalked(init, n);
      }
    }
  }

  /** The status-bar text refreshed every 100 files. The percentage is the
      exact floor of `processed * 100 / total`; the source computes
      `int(processed / total * 100)` in binary floating point, which can be
      one lower when `total` divides `100 * processed` (2900 of 10000 shows
      28 there). */
  function ScanStatus(processed: nat, total: nat): string
    requires total > 0
  {
    "正在扫描文件... " + NatToString(processed) + "/" + NatToString(total)
      + " (" + NatToString(processed * 100 / total) + "%)"
  }

  /** How the indexing loop ends and how many files it recorded, for `n`
      walked files, a walk that raises (`raised`) or not, the count `total`
      from phase 1, and the cancellation point. */
  function Run(n: nat, raised: Option<bool>, total: nat, cancelAt: nat, c2: nat): (Stop, nat)
  {
    // the first file whose check sees the cleared flag
    var k := if cancelAt <= c2 then 0 else cancelAt - c2;
    if k < n && (k == 0 || total != 0) then (Cancelled, k)
    else if n > 0 && total == 0 then (Raised(false), 1)  // processed / total divides by zero
    else if raised.Some? then (Raised(raised.value), n)
    else if k <= n then (Cancelled, n)  // the check after the walk
    else (Completed, n)
  }

  /** The status texts shown by the first `count` refreshes: one at every
      100th file. */
  function Statuses(count: nat, total: nat): (r: seq<string>)
    requires total > 0
    ensures |r| == count
    ensures forall m :: 0 <= m < count ==> r[m] == ScanStatus(100 * (m + 1), total)
  {
    if count == 0 then [] else Statuses(count - 1, total) + [ScanStatus(100 * count, total)]
  }

  /** The status texts refreshed while the first `processed` files were recorded. */
  predicate Refreshes(refreshed: seq<string>, processed: nat, total: nat)
  {
    if total == 0 then refreshed == [] else refreshed == Statuses(processed / 100, total)
  }

  lemma RefreshStep(refreshed: seq<string>, processed: nat, total: nat)
    requires Refreshes(refreshed, processed, total) && total > 0
    ensures (processed + 1) % 100 == 0 ==> Refreshes(refreshed + [ScanStatus(processed + 1, total)], processed + 1, total)
    ensures (processed + 1) % 100 != 0 ==> Refreshes(refreshed, processed + 1, total)
  {
    var q := processed / 100;
    assert processed == 100 * q + processed % 100;
    if (processed + 1) % 100 == 0 {
      assert processed + 1 == 100 * (q + 1);
      assert (processed + 1) / 100 == q + 1;
    } else {
      assert (processed + 1) / 100 == q;
    }
  }

  /** How the files of one directory end: `None` when all `m` of them were
      recorded, otherwise the stop; and the count afterwards, starting from
      `p0` files recorded before the directory. */
  function DirRun(m: nat, p0: nat, total: nat, cancelAt: nat, c2: nat): (Option<Stop>, nat)
  {
    // the first file of the directory whose check sees the cleared flag
    var k := if cancelAt <= c2 + p0 then 0 else cancelAt - c2 - p0;
    if k < m && (k == 0 || total != 0) then (Some(Cancelled), p0 + k)
    else if m > 0 && total == 0 then (Some(Raised(false)), p0 + 1)
    else (None, p0 + m)
  }

  /** A directory that stops the loop gives the whole loop's outcome; one
      that does not leaves the flag unseen and the count non-zero. */
  lemma DirRunInRun(m: nat, p0: nat, n: nat, raised: Option<bool>, total: nat, cancelAt: nat, c2: nat)
    requires p0 + m <= n
    requires p0 > 0 ==> c2 + p0 <= cancelAt && total > 0
    ensures var (stop, p) := DirRun(m, p0, total, cancelAt, c2);
      && p0 <= p <= p0 + m
      && (stop.Some? ==> (stop.value, p) == Run(n, raised, total, cancelAt, c2))
      && (stop.None? ==> p == p0 + m && (p > 0 ==> c2 + p <= cancelAt && total > 0))
  {
  }

  /** Every 100th file refreshes the status text (lines 286-290). */
  method Refresh(refreshed0: seq<string>, processed: nat, total: nat) returns (refreshed: seq<string>)
    requires processed > 0 && total > 0 && Refreshes(refreshed0, processed - 1, total)
    ensures Refreshes(refreshed, processed, total)
  {
    RefreshStep(refreshed0, processed - 1, total);
    refreshed := refreshed0;
    if processed % 100 == 0 {
      refreshed := refreshed + [ScanStatus(processed, total)];
    }
  }

  /** One iteration of the inner loop (lines 271-290): the flag is checked;
      the file is added to the dict; the count goes up; the progress
      processed / total is computed, raising when total is 0; every 100th
      file refreshes the status text. */
  method ScanFile(dir: Dir, filename: FileName, dict0: FileDict,
                  processed0: nat, refreshed0: seq<string>, total: nat, cancelAt: nat, c2: nat)
    returns (dict: FileDict, processed: nat, refreshed: seq<string>, stop: Option<Stop>)
    requires processed0 > 0 ==> c2 + processed0 <= cancelAt && total > 0
    requires Refreshes(refreshed0, processed0, total)
    ensures (stop, processed) == DirRun(1, processed0, total, cancelAt, c2)
    ensures dict == if processed == processed0 then dict0 else Add(dict0, dir, filename)
    ensures Refreshes(refreshed, processed, total)
  {
    dict, processed, refreshed, stop := dict0, processed0, refreshed0, None;
    // `if not self.scanning`
    if c2 + processed >= cancelAt {
      stop := Some(Cancelled);
      return;
    }
    if filename in dict.dirs {
      dict := FileDict(dict.keys, dict.dirs[filename := dict.dirs[filename] + [dir]]);
    } else {
      dict := FileDict(dict.keys + [filename], dict.dirs[filename := [dir]]);
    }
    processed := processed + 1;
    if total == 0 {
      // `processed_files / total_files` raises ZeroDivisionError
      stop := Some(Raised(false));
    } else {
      refreshed := Refresh(refreshed, processed, total);
    }
  }

  /** Going on file by file through a directory: a file that stops the
      loop gives the directory's outcome. */
  lemma DirRunStep(m: nat, j: nat, p0: nat, total: nat, cancelAt: nat, c2: nat)
    requires j < m
    requires p0 + j > 0 ==> c2 + p0 + j <= cancelAt && total > 0
    ensures var (stop, p) := DirRun(1, p0 + j, total, cancelAt, c2);
      && (stop.Some? ==> (stop, p) == DirRun(m, p0, total, cancelAt, c2))
      && (stop.None? ==> p == p0 + j + 1 && c2 + p <= cancelAt && total > 0)
  {
  }

  lemma AddAllSnoc(dict: FileDict, p: seq<(Dir, FileName)>, d: Dir, f: FileName)
    ensures AddAll(dict, p + [(d, f)]) == Add(AddAll(dict, p), d, f)
  {
    assert (p + [(d, f)])[..|p|] == p;
  }

  /** The inner loop of `_scan_files_thread` (lines 270-290) over the files
      of one directory. */
  method ScanDirectory(dir: Dir, files: seq<FileName>, dict0: FileDict,
                       processed0: nat, refreshed0: seq<string>, total: nat, cancelAt: nat, c2: nat)
    returns (dict: FileDict, processed: nat, refreshed: seq<string>, stop: Option<Stop>)
    requires processed0 > 0 ==> c2 + processed0 <= cancelAt && total > 0
    requires Refreshes(refreshed0, processed0, total)
    ensures (stop, processed) == DirRun(|files|, processed0, total, cancelAt, c2)
    ensures processed0 <= processed <= processed0 + |files|
    ensures dict == AddAll(dict0, Tag(dir, files[..processed - processed0]))
    ensures Refreshes(refreshed, processed, total)
  {
    dict, processed, refreshed, stop := dict0, processed0, refreshed0, None;
    var j := 0;
    while j < |files| && stop.None?
      invariant j <= |files| && processed0 <= processed <= processed0 + j
      invariant dict == AddAll(dict0, Tag(dir, files[..processed - processed0]))
      invariant Refreshes(refreshed, processed, total)
      invariant stop.None? ==> processed == processed0 + j && (processed > 0 ==> c2 + processed <= cancelAt && total > 0)
      invariant stop.Some? ==> (stop, processed) == DirRun(|files|, processed0, total, cancelAt, c2)
    {
      ghost var dict1, p1 := dict, processed;
      dict, processed, refreshed, stop := ScanFile(dir, files[j], dict, processed, refreshed, total, cancelAt, c2);
      assert processed != p1 ==> processed == p1 + 1 && p1 == processed0 + j by {
        DirRunStep(|files|, j, processed0, total, cancelAt, c2);
      }
      assert dict == AddAll(dict0, Tag(dir, files[..processed - processed0])) by {
        if processed != p1 {
          TagSnoc(dir, files, j);
          AddAllSnoc(dict0, Tag(dir, files[..j]), dir, files[j]);
        }
      }
      assert stop.None? ==> processed == processed0 + j + 1 && c2 + processed <= cancelAt && total > 0 by {
        DirRunStep(|files|, j, processed0, total, cancelAt, c2);
      }
      assert stop.Some? ==> (stop, processed) == DirRun(|files|, processed0, total, cancelAt, c2) by {
        DirRunStep(|files|, j, processed0, total, cancelAt, c2);
      }
      j := j + 1;
    }
  }

  /** What holds before directory `i` of the indexing walk: the files of
      the directories before it are recorded, and the flag has not been
      seen cleared. */
  ghost predicate IndexedUpTo(walk: seq<WalkStep>, i: nat, dict: FileDict, processed: nat, total: nat, cancelAt: nat, c2: nat)
  {
    && i <= FirstRaise(walk)
    && processed == |Flatten(walk[..i])| <= |WalkedFiles(walk)|
    && WalkedFiles(walk)[..processed] == Flatten(walk[..i])
    && dict == Recorded(WalkedFiles(walk)[..processed])
    && (processed > 0 ==> c2 + processed <= cancelAt && total > 0)
  }

  lemma DirFilesInWalk(walk: seq<WalkStep>, i: nat, p0: nat, k: nat)
    requires i < FirstRaise(walk) && k <= |walk[i].files| && p0 == |Flatten(walk[..i])|
    ensures p0 + k <= |WalkedFiles(walk)|
    ensures WalkedFiles(walk)[..p0 + k] == WalkedFiles(walk)[..p0] + Tag(walk[i].dir, walk[i].files[..k])
  {
    DirInWalk(walk, i, k);
  }

  lemma RecordedAppend(whole: seq<(Dir, FileName)>, before: seq<(Dir, FileName)>, more: seq<(Dir, FileName)>)
    requires whole == before + more
    ensures Recorded(whole) == AddAll(Recorded(before), more)
  {
    AddAllAppend(FileDict([], map[]), before, more);
  }

  /** The files a directory's pass adds extend the walked prefix. */
  lemma IndexStepRecords(walk: seq<WalkStep>, i: nat, dict0: FileDict, p0: nat, dict: FileDict, p: nat)
    requires i < FirstRaise(walk) && p0 == |Flatten(walk[..i])| <= |WalkedFiles(walk)|
    requires dict0 == Recorded(WalkedFiles(walk)[..p0])
    requires p0 <= p <= p0 + |walk[i].files|
    requires dict == AddAll(dict0, Tag(walk[i].dir, walk[i].files[..p - p0]))
    ensures p <= |WalkedFiles(walk)| && dict == Recorded(WalkedFiles(walk)[..p])
  {
    var all := WalkedFiles(walk);
    DirFilesInWalk(walk, i, p0, p - p0);
    RecordedAppend(all[..p], all[..p0], Tag(walk[i].dir, walk[i].files[..p - p0]));
  }

  /** A directory walked to its end leaves the prefix invariant at `i + 1`. */
  lemma IndexStepWhole(walk: seq<WalkStep>, i: nat, p0: nat)
    requires i < FirstRaise(walk) && p0 == |Flatten(walk[..i])|
    ensures var p := p0 + |walk[i].files|;
      p <= |WalkedFiles(walk)| && |Flatten(walk[..i + 1])| == p && WalkedFiles(walk)[..p] == Flatten(walk[..i + 1])
  {
    DirInWalk(walk, i, 0);
  }

  /** After directory `i`: either the loop stopped in it with the outcome
      of the whole run, or the files of directory `i` are recorded too. */
  lemma IndexStep(walk: seq<WalkStep>, i: nat, dict0: FileDict, p0: nat, dict: FileDict, p: nat, s: Option<Stop>,
                  total: nat, cancelAt: nat, c2: nat)
    requires i < FirstRaise(walk) && p0 == |Flatten(walk[..i])| <= |WalkedFiles(walk)|
    requires dict0 == Recorded(WalkedFiles(walk)[..p0])
    requires p0 > 0 ==> c2 + p0 <= cancelAt && total > 0
    requires (s, p) == DirRun(|walk[i].files|, p0, total, cancelAt, c2)
    requires p0 <= p <= p0 + |walk[i].files|
    requires dict == AddAll(dict0, Tag(walk[i].dir, walk[i].files[..p - p0]))
    ensures s.None? ==> IndexedUpTo(walk, i + 1, dict, p, total, cancelAt, c2)
    ensures s.Some? ==> (s.value, p) == Run(|WalkedFiles(walk)|, RaisedAt(walk), total, cancelAt, c2)
    ensures p <= |WalkedFiles(walk)| && dict == Recorded(WalkedFiles(walk)[..p])
  {
    var m := |walk[i].files|;
    IndexStepRecords(walk, i, dict0, p0, dict, p);
    assert p0 + m <= |WalkedFiles(walk)| by {
      IndexStepWhole(walk, i, p0);
    }
    if s.Some? {
      assert (s.value, p) == Run(|WalkedFiles(walk)|, RaisedAt(walk), total, cancelAt, c2) by {
        DirRunInRun(m, p0, |WalkedFiles(walk)|, RaisedAt(walk), total, cancelAt, c2);
      }
    } else {
      assert p == p0 + m && (p > 0 ==> c2 + p <= cancelAt && total > 0) by {
        DirRunInRun(m, p0, |WalkedFiles(walk)|, RaisedAt(walk), total, cancelAt, c2);
      }
      IndexStepWhole(walk, i, p0);
      assert i + 1 <= FirstRaise(walk);
    }
  }

  /** A walk that raises at directory `i` ends the loop as `Run` says. */
  lemma IndexRaise(walk: seq<WalkStep>, i: nat, dict: FileDict, processed: nat, total: nat, cancelAt: nat, c2: nat)
    requires IndexedUpTo(walk, i, dict, processed, total, cancelAt, c2)
    requires i < |walk| && walk[i].Raise?
    ensures (Raised(walk[i].permission), processed) == Run(|WalkedFiles(walk)|, RaisedAt(walk), total, cancelAt, c2)
  {
    assert i == FirstRaise(walk);
    assert walk[..i] == walk[..FirstRaise(walk)];
  }

  /** The check after a walk that did not raise ends the loop as `Run` says. */
  lemma IndexEnd(walk: seq<WalkStep>, dict: FileDict, processed: nat, total: nat, cancelAt: nat, c2: nat)
    requires IndexedUpTo(walk, |walk|, dict, processed, total, cancelAt, c2)
    ensures (if c2 + processed >= cancelAt then Cancelled else Completed, processed)
         == Run(|WalkedFiles(walk)|, RaisedAt(walk), total, cancelAt, c2)
  {
    assert walk[..|walk|] == walk[..FirstRaise(walk)];
  }

  /** The outer loop of `_scan_files_thread` (lines 269-294): every directory
      of the walk in turn, then the flag is checked once more. */
  method IndexFiles(walk: seq<WalkStep>, total: nat, cancelAt: nat, c2: nat)
    returns (dict: FileDict, processed: nat, stop: Stop, refreshed: seq<string>)
    ensures (stop, processed) == Run(|WalkedFiles(walk)|, RaisedAt(walk), total, cancelAt, c2)
    ensures processed <= |WalkedFiles(walk)|
    ensures dict == Recorded(WalkedFiles(walk)[..processed])
    ensures Refreshes(refreshed, processed, total)
  {
    dict, processed, refreshed := FileDict([], map[]), 0, [];
    var i := 0;
    assert walk[..0] == [];
    while i < |walk|
      invariant IndexedUpTo(walk, i, dict, processed, total, cancelAt, c2)
      invariant Refreshes(refreshed, processed, total)
    {
      if walk[i].Raise? {
        stop := Raised(walk[i].permission);
        IndexRaise(walk, i, dict, processed, total, cancelAt, c2);
        return;
      }
      ghost var dict0, p0 := dict, processed;
      var s: Option<Stop>;
      dict, processed, refreshed, s := ScanDirectory(walk[i].dir, walk[i].files, dict, processed, refreshed,
                                                    total, cancelAt, c2);
      assert i < FirstRaise(walk);
      IndexStep(walk, i, dict0, p0, dict, processed, s, total, cancelAt, c2);
      if s.Some? {
        stop := s.value;
        return;
      }
      i := i + 1;
    }
    IndexEnd(walk, dict, processed, total, cancelAt, c2);
    // `if not self.scanning` after the walk
    if c2 + processed >= cancelAt {
      stop := Cancelled;
    } else {
      stop := Completed;
    }
  }

  /** The total length of the dict's lists, over its keys. */
  function SumDirs(keys: seq<FileName>, dirs: map<FileName, seq<Dir>>): nat
  {
    if keys == [] then 0 else (if keys[0] in dirs then |dirs[keys[0]]| else 0) + SumDirs(keys[1..], dirs)
  }

  lemma {:induction false} SumDirsOther(keys: seq<FileName>, dirs: map<FileName, seq<Dir>>, f: FileName, v: seq<Dir>)
    requires f !in keys
    ensures SumDirs(keys, dirs[f := v]) == SumDirs(keys, dirs)
  {
    if keys != [] {
      SumDirsOther(keys[1..], dirs, f, v);
    }
  }

  lemma {:induction false} SumDirsUpdate(keys: seq<FileName>, dirs: map<FileName, seq<Dir>>, f: FileName, v: seq<Dir>)
    requires forall i, j :: 0 <= i < j < |keys| ==> keys[i] != keys[j]
    requires f in keys && f in dirs
    ensures SumDirs(keys, dirs[f := v]) == SumDirs(keys, dirs) - |dirs[f]| + |v|
  {
    if keys[0] == f {
      assert f !in keys[1..];
      SumDirsOther(keys[1..], dirs, f, v);
    } else {
      SumDirsUpdate(keys[1..], dirs, f, v);
    }
  }

  lemma {:induction false} SumDirsAppend(keys: seq<FileName>, dirs: map<FileName, seq<Dir>>, f: FileName)
    ensures SumDirs(keys + [f], dirs) == SumDirs(keys, dirs) + (if f in dirs then |dirs[f]| else 0)
  {
    if keys != [] {
      SumDirsAppend(keys[1..], dirs, f);
      assert (keys + [f])[1..] == keys[1..] + [f];
    }
  }

  /** Each walked file is recorded exactly once: the lists of the dict add
      up to the number of files recorded. */
  lemma {:induction false} RecordedSize(pairs: seq<(Dir, FileName)>)
    ensures SumDirs(Recorded(pairs).keys, Recorded(pairs).dirs) == |pairs|
  {
    if pairs != [] {
      var init := pairs[..|pairs| - 1];
      var (d, f) := pairs[|pairs| - 1];
      var dict := Recorded(init);
      RecordedSize(init);
      RecordedIsIndex(init);
      NamesDistinct(init);
      NamesAreWalked(init, f);
      if f in dict.dirs {
        SumDirsUpdate(dict.keys, dict.dirs, f, dict.dirs[f] + [d]);
      } else {
        SumDirsOther(dict.keys, dict.dirs, f, [d]);
        SumDirsAppend(dict.keys, dict.dirs[f := [d]], f);
      }
    }
  }

  // ----- Phase 3: the duplicate filter and the sort by count -----

  /** `{name: paths for name, paths in file_dict.items() if len(paths) > 1}`,
      in key order. */
  function Duplicates(keys: seq<FileName>, dirs: map<FileName, seq<Dir>>): seq<(FileName, seq<Dir>)>
  {
    if keys == [] then []
    else
      (if keys[0] in dirs && |dirs[keys[0]]| > 1 then [(keys[0], dirs[keys[0]])] else [])
        + Duplicates(keys[1..], dirs)
  }

  lemma {:induction false} DuplicatesMembers(keys: seq<FileName>, dirs: map<FileName, seq<Dir>>)
    ensures forall e :: e in Duplicates(keys, dirs) <==> e.0 in keys && e.0 in dirs && e.1 == dirs[e.0] && |e.1| > 1
  {
    if keys != [] {
      DuplicatesMembers(keys[1..], dirs);
      assert forall n :: n in keys <==> n == keys[0] || n in keys[1..];
    }
  }

  /** The dict the scan builds lists a name with its directories exactly
      when it was walked in more than one directory. */
  lemma DuplicatesOfWalk(pairs: seq<(Dir, FileName)>)
    ensures var dict := Recorded(pairs);
      forall e :: e in Duplicates(dict.keys, dict.dirs) <==> e.1 == DirsOf(pairs, e.0) && |e.1| > 1
  {
    var dict := Recorded(pairs);
    RecordedIsIndex(pairs);
    DuplicatesMembers(dict.keys, dict.dirs);
    forall n ensures n in Names(pairs) <==> DirsOf(pairs, n) != [] {
      NamesAreWalked(pairs, n);
    }
  }

  /** The sort key `len(x[1])`. */
  function PathCount(e: (FileName, seq<Dir>)): int { |e.1| }

  /** `sorted(items, key=lambda x: len(x[1]), reverse=True)` */
  function SortByCount(items: seq<(FileName, seq<Dir>)>): seq<(FileName, seq<Dir>)>
  {
    SortByKey(items, PathCount, IntLe, true)
  }

  /** The sorted list holds the same entries as many times each. */
  lemma SortByCountPermutation(items: seq<(FileName, seq<Dir>)>)
    ensures multiset(SortByCount(items)) == multiset(items)
  {
    SortByKeyPermutation(items, PathCount, IntLe, true);
  }

  /** Most-repeated names first. */
  lemma SortByCountOrdered(items: seq<(FileName, seq<Dir>)>)
    ensures var r := SortByCount(items);
      forall i, j :: 0 <= i < j < |r| ==> |r[i].1| >= |r[j].1|
  {
    IntLeTotalPreorder();
    SortByKeySorted(items, PathCount, IntLe, true);
  }

  /** Python's sort is stable even with `reverse=True`: names with the same
      count keep their order, which is the order they were first walked. */
  lemma SortByCountStable(items: seq<(FileName, seq<Dir>)>, c: int)
    ensures WithKeyOf(SortByCount(items), PathCount, c) == WithKeyOf(items, PathCount, c)
  {
    IntLeTotalPreorder();
    SortByKeyStable(items, PathCount, IntLe, true, c);
  }

  // ----- The scan thread -----

  /** What `_scan_files_thread` hands back, for the walk seen by the
      counting pass and the walk seen by the indexing pass. */
  function ScanResult(countWalk: seq<WalkStep>, scanWalk: seq<WalkStep>, cancelAt: nat): ScanOutcome
  {
    var total := CountTotal(countWalk, cancelAt);
    if total == -1 then
      (if cancelAt >= FirstRaise(countWalk) && FirstRaise(countWalk) < |countWalk| then CountError else ScanCancelled)
    else if |countWalk| >= cancelAt then ScanCancelled
    else
      var (stop, processed) := Run(|WalkedFiles(scanWalk)|, RaisedAt(scanWalk), total, cancelAt, |countWalk| + 1);
      match stop
      case Cancelled => ScanCancelled
      case Raised(permission) => ScanError(permission)
      case Completed =>
        var dict := Recorded(WalkedFiles(scanWalk)[..processed]);
        Found(SortByCount(Duplicates(dict.keys, dict.dirs)), total)
  }

  /** `_scan_files_thread` (lines 256-314): count, check the flag, index,
      filter and sort.  `refreshed` are the status texts shown on the way. */
  method ScanFilesThread(countWalk: seq<WalkStep>, scanWalk: seq<WalkStep>, cancelAt: nat)
    returns (outcome: ScanOutcome, refreshed: seq<string>)
    ensures outcome == ScanResult(countWalk, scanWalk, cancelAt)
  {
    refreshed := [];
    var total, failed := CountTotalFiles(countWalk, cancelAt);
    if total == -1 {
      outcome := if failed then CountError else ScanCancelled;
      return;
    }
    // `or not self.scanning`
    if |countWalk| >= cancelAt {
      outcome := ScanCancelled;
      return;
    }
    var dict, processed, stop;
    dict, processed, stop, refreshed := IndexFiles(scanWalk, total, cancelAt, |countWalk| + 1);
    match stop
    case Cancelled =>
      outcome := ScanCancelled;
    case Raised(permission) =>
      outcome := ScanError(permission);
    case Completed =>
      outcome := Found(SortByCount(Duplicates(dict.keys, dict.dirs)), total);
  }

  /** A scan that finds its results saw the flag set at every checkpoint,
      met no exception in either walk, and recorded every walked file. */
  lemma FoundMeansUninterrupted(countWalk: seq<WalkStep>, scanWalk: seq<WalkStep>, cancelAt: nat)
    requires ScanResult(countWalk, scanWalk, cancelAt).Found?
    ensures FirstRaise(countWalk) == |countWalk| && FirstRaise(scanWalk) == |scanWalk|
    ensures cancelAt > |countWalk| + 1 + |WalkedFiles(scanWalk)|
    ensures ScanResult(countWalk, scanWalk, cancelAt).total == |Flatten(countWalk)|
  {
    assert countWalk[..FirstRaise(countWalk)] == countWalk;
  }

  /** When nothing is cancelled, no walk raises and the tree does not change
      between the two walks, the scan reports the names found in more than
      one directory, with those directories, most-repeated first. */
  lemma UninterruptedScanFindsDuplicates(walk: seq<WalkStep>, cancelAt: nat)
    requires FirstRaise(walk) == |walk|
    requires cancelAt > |walk| + 1 + |WalkedFiles(walk)|
    ensures var r := ScanResult(walk, walk, cancelAt);
      && r == Found(r.duplicates, |WalkedFiles(walk)|)
      && (forall e :: e in r.duplicates <==> e.1 == DirsOf(WalkedFiles(walk), e.0) && |e.1| > 1)
      && (forall i, j :: 0 <= i < j < |r.duplicates| ==> |r.duplicates[i].1| >= |r.duplicates[j].1|)
  {
    var all := WalkedFiles(walk);
    assert all[..|all|] == all;
    var dict := Recorded(all);
    var items := Duplicates(dict.keys, dict.dirs);
    DuplicatesOfWalk(all);
    SortByCountPermutation(items);
    SortByCountOrdered(items);
    assert forall e :: e in SortByCount(items) <==> e in multiset(items);
  }
}
