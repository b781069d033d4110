/** The edits video_merger.py makes to its list of selected files. The
    tree view shows file i under the item id str(i), so a selection is a
    set of distinct positions in the list; the list is redrawn after every
    edit. The loops of the source are methods here, each proved to compute
    the function that states its result. */
module FileList {
  import opened Text
  import opened Paths
  import opened Sorting

  /** No file occurs twice. */
  predicate Distinct<T(==)>(s: seq<T>)
  {
    forall i, j :: 0 <= i < j < |s| ==> s[i] != s[j]
  }

  // ---------------------------------------------------------------------
  // add_videos
  // ---------------------------------------------------------------------

  /** The list after appending, in order, each chosen path not yet in it. */
  function AddNew(files: seq<string>, paths: seq<string>): (r: seq<string>)
    ensures |files| <= |r| <= |files| + |paths|
  {
    if paths == [] then files
    else
      var before := AddNew(files, paths[..|paths| - 1]);
      var p := paths[|paths| - 1];
      if p in before then before else before + [p]
  }

  /** The old list stays in front, every chosen path ends up in the list,
      nothing else is added, and a list without repeats keeps none. */
  lemma {:induction false} AddNewProperties(files: seq<string>, paths: seq<string>)
    ensures |AddNew(files, paths)| >= |files| && AddNew(files, paths)[..|files|] == files
    ensures forall x :: x in AddNew(files, paths) <==> x in files || x in paths
    ensures Distinct(files) ==> Distinct(AddNew(files, paths))
  {
    if paths != [] {
      var init := paths[..|paths| - 1];
      AddNewProperties(files, init);
      var before := AddNew(files, init);
      var p := paths[|paths| - 1];
      assert paths == init + [p];
      if p !in before {
        assert (before + [p])[..|files|] == before[..|files|];
      }
    }
  }

  /** The loop of add_videos: the new list and the number of files added. */
  method AddFiles(files: seq<string>, paths: seq<string>) returns (result: seq<string>, added: nat)
    ensures result == AddNew(files, paths)
    ensures added == |result| - |files|
  {
    result := files;
    added := 0;
    var i := 0;
    while i < |paths|
      invariant 0 <= i <= |paths|
      invariant result == AddNew(files, paths[..i])
      invariant |result| == |files| + added
    {
      assert paths[..i + 1][..i] == paths[..i];
      if paths[i] !in result {
        result := result + [paths[i]];
        added := added + 1;
      }
      i := i + 1;
    }
    assert paths[..i] == paths;
  }

  /** `basename(p).split('.')[0]`: the name up to its first dot. */
  function Stem(p: string): string
  {
    Split(Basename(p), '.')[0]
  }

  /** The output path proposed for the first file:
      `join(dirname(p), stem + "_merged.mp4")`. */
  function DefaultOutput(p: string): string
  {
    PathJoin(Dirname(p), Stem(p) + "_merged.mp4")
  }

  /** The proposed output lies in the first file's directory and is named
      after the part of its name before the first dot. */
  lemma DefaultOutputPlace(p: string)
    ensures Dirname(DefaultOutput(p)) == Dirname(p)
    ensures Basename(DefaultOutput(p)) == Stem(p) + "_merged.mp4"
    ensures StartsWith(Basename(p), Stem(p)) && '.' !in Stem(p)
    ensures |Stem(p)| < |Basename(p)| ==> Basename(p)[|Stem(p)|] == '.'
  {
    SplitFirst(Basename(p), '.');
    var name := Stem(p) + "_merged.mp4";
    assert '/' !in name by {
      assert '/' !in Stem(p) by {
        forall i | 0 <= i < |Stem(p)| ensures Stem(p)[i] != '/' {
          assert Stem(p)[i] == Basename(p)[i];
        }
      }
    }
    JoinDirname(p, name);
  }

  // ---------------------------------------------------------------------
  // remove_selected
  // ---------------------------------------------------------------------

  /** The files at positions lo <= i < hi that are not in `marked`, in order. */
  function KeepRange(files: seq<string>, marked: set<nat>, lo: nat, hi: nat): (r: seq<string>)
    requires hi <= |files|
    ensures |r| <= if hi <= lo then 0 else hi - lo
    decreases hi - lo
  {
    if hi <= lo then []
    else KeepRange(files, marked, lo, hi - 1) + (if hi - 1 in marked then [] else [files[hi - 1]])
  }

  /** The list without the files at the marked positions. */
  function Without(files: seq<string>, marked: set<nat>): seq<string>
  {
    KeepRange(files, marked, 0, |files|)
  }

  lemma {:induction false} KeepRangeSplit(files: seq<string>, marked: set<nat>, lo: nat, mid: nat, hi: nat)
    requires lo <= mid <= hi <= |files|
    ensures KeepRange(files, marked, lo, hi) == KeepRange(files, marked, lo, mid) + KeepRange(files, marked, mid, hi)
    decreases hi - mid
  {
    if hi > mid {
      KeepRangeSplit(files, marked, lo, mid, hi - 1);
    }
  }

  /** The first position of a range, kept or dropped, then the rest. */
  lemma KeepRangeCons(files: seq<string>, marked: set<nat>, lo: nat, hi: nat)
    requires lo < hi <= |files|
    ensures KeepRange(files, marked, lo, hi)
         == (if lo in marked then [] else [files[lo]]) + KeepRange(files, marked, lo + 1, hi)
  {
    KeepRangeSplit(files, marked, lo, lo + 1, hi);
  }

  /** Marks outside the range play no part. */
  lemma {:induction false} KeepRangeMarks(files: seq<string>, marked: set<nat>, other: set<nat>, lo: nat, hi: nat)
    requires hi <= |files|
    requires forall i :: lo <= i < hi ==> (i in marked <==> i in other)
    ensures KeepRange(files, marked, lo, hi) == KeepRange(files, other, lo, hi)
    decreases hi - lo
  {
    if hi > lo {
      KeepRangeMarks(files, marked, other, lo, hi - 1);
    }
  }

  /** A range without marks is kept whole. */
  lemma {:induction false} KeepRangeUnmarked(files: seq<string>, marked: set<nat>, lo: nat, hi: nat)
    requires lo <= hi <= |files|
    requires forall i :: lo <= i < hi ==> i !in marked
    ensures KeepRange(files, marked, lo, hi) == files[lo..hi]
    decreases hi - lo
  {
    if hi > lo {
      KeepRangeUnmarked(files, marked, lo, hi - 1);
      assert files[lo..hi] == files[lo..hi - 1] + [files[hi - 1]];
    }
  }

  /** A file is kept exactly when some unmarked position holds it. */
  lemma {:induction false} KeepRangeMembers(files: seq<string>, marked: set<nat>, lo: nat, hi: nat, x: string)
    requires hi <= |files|
    ensures x in KeepRange(files, marked, lo, hi) <==> exists i :: lo <= i < hi && i !in marked && files[i] == x
    decreases hi - lo
  {
    if hi > lo {
      KeepRangeMembers(files, marked, lo, hi - 1, x);
    }
  }

  /** Deleting position d from the list without the marks above d leaves
      the list without those marks and d. */
  lemma DeleteBelowMarks(files: seq<string>, marked: set<nat>, d: nat)
    requires d < |files| && d !in marked
    requires forall x :: x in marked ==> x > d
    ensures var w := Without(files, marked);
      |w| > d && Without(files, marked + {d}) == w[..d] + w[d + 1..]
  {
    var n, marked' := |files|, marked + {d};
    var rest := KeepRange(files, marked, d + 1, n);
    assert Without(files, marked) == files[..d] + [files[d]] + rest by {
      KeepRangeSplit(files, marked, 0, d, n);
      KeepRangeUnmarked(files, marked, 0, d);
      KeepRangeCons(files, marked, d, n);
    }
    assert Without(files, marked') == files[..d] + rest by {
      KeepRangeSplit(files, marked', 0, d, n);
      KeepRangeUnmarked(files, marked', 0, d);
      KeepRangeCons(files, marked', d, n);
      KeepRangeMarks(files, marked', marked, d + 1, n);
    }
    DropAt(Without(files, marked), files[..d], files[d], rest);
  }

  lemma DropAt<T>(w: seq<T>, a: seq<T>, x: T, b: seq<T>)
    requires w == a + [x] + b
    ensures |w| > |a| && w[..|a|] + w[|a| + 1..] == a + b
  {
    assert w[..|a|] == a && w[|a| + 1..] == b;
  }

  /** With every mark above d, the positions up to d are all kept. */
  lemma KeptLength(files: seq<string>, marked: set<nat>, d: nat)
    requires forall x :: x in marked ==> x > d
    ensures |Without(files, marked)| <= |files|
    ensures d < |files| <==> d < |Without(files, marked)|
  {
    if d < |files| {
      KeepRangeSplit(files, marked, 0, d + 1, |files|);
      KeepRangeUnmarked(files, marked, 0, d + 1);
    }
  }

  /** A mark beyond the end changes nothing. */
  lemma MarkBeyondEnd(files: seq<string>, marked: set<nat>, d: nat)
    requires d >= |files|
    ensures Without(files, marked + {d}) == Without(files, marked)
  {
    KeepRangeMarks(files, marked, marked + {d}, 0, |files|);
  }

  /** `sorted(indices, reverse=True)` */
  function Descending(indices: seq<nat>): (r: seq<nat>)
    ensures |r| == |indices|
  {
    SortByKey(indices, (x: nat) => x as int, IntLe, true)
  }

  /** The selection sorted in descending order holds the same positions,
      each below the one before it. */
  lemma DescendingStrict(indices: seq<nat>)
    requires Distinct(indices)
    ensures multiset(Descending(indices)) == multiset(indices)
    ensures forall i, j :: 0 <= i < j < |indices| ==> Descending(indices)[i] > Descending(indices)[j]
  {
    var r := Descending(indices);
    SortByKeyPermutation(indices, (x: nat) => x as int, IntLe, true);
    IntLeTotalPreorder();
    SortByKeySorted(indices, (x: nat) => x as int, IntLe, true);
    forall i, j | 0 <= i < j < |r| ensures r[i] > r[j] {
      RepeatCount(r, i, j);
      DistinctCount(indices, r[i]);
    }
  }

  lemma RepeatCount<T>(s: seq<T>, i: nat, j: nat)
    requires i < j < |s|
    ensures s[i] == s[j] ==> multiset(s)[s[i]] >= 2
  {
    assert s == s[..i] + [s[i]] + s[i + 1..j] + [s[j]] + s[j + 1..];
  }

  lemma DistinctCount<T>(s: seq<T>, x: T)
    requires Distinct(s)
    ensures multiset(s)[x] <= 1
  {
    if s != [] {
      DistinctCount(s[1..], x);
      assert s == [s[0]] + s[1..];
      if s[0] == x {
        assert x !in s[1..];
      }
    }
  }

  /** The positions of a selection, as a set. */
  function Positions(selection: seq<nat>): set<nat>
  {
    set i | i in selection
  }

  /** The deletion loop of remove_selected: positions from the largest
      down, each deleted when it is inside the current list. */
  method RemoveAt(files: seq<string>, selection: seq<nat>) returns (result: seq<string>)
    requires Distinct(selection)
    ensures result == Without(files, Positions(selection))
  {
    var order := Descending(selection);
    DescendingStrict(selection);
    result := files;
    var k := 0;
    ghost var done: set<nat> := {};
    KeepRangeUnmarked(files, done, 0, |files|);
    while k < |order|
      invariant 0 <= k <= |order|
      invariant done == set i | i in order[..k]
      invariant result == Without(files, done)
    {
      var d := order[k];
      forall x | x in done ensures x > d {
        var t :| 0 <= t < k && order[t] == x;
      }
      KeptLength(files, done, d);
      if 0 <= d < |result| {
        DeleteBelowMarks(files, done, d);
        result := result[..d] + result[d + 1..];
      } else {
        MarkBeyondEnd(files, done, d);
      }
      assert order[..k + 1] == order[..k] + [d];
      done := done + {d};
      k := k + 1;
    }
    assert order[..k] == order;
    forall x: nat ensures x in done <==> x in selection {
      assert x in order <==> x in multiset(order);
      assert x in selection <==> x in multiset(selection);
    }
    assert done == Positions(selection);
  }

  // ---------------------------------------------------------------------
  // _on_item_drag
  // ---------------------------------------------------------------------

  /** Where the dragged file goes: the target, one less when it lay below
      the dragged file. */
  function DropIndex(drag: nat, target: nat): nat
  {
    if target > drag then target - 1 else target
  }

  /** `pop(drag)` then `insert(DropIndex(drag, target), file)`. */
  function Dragged(files: seq<string>, drag: nat, target: nat): seq<string>
    requires drag < |files| && target < |files|
  {
    var rest := files[..drag] + files[drag + 1..];
    var t := DropIndex(drag, target);
    rest[..t] + [files[drag]] + rest[t..]
  }

  /** Dragging keeps the length and the files, puts the dragged file at
      the drop index, and leaves the others in their order. */
  lemma DraggedMoves(files: seq<string>, drag: nat, target: nat)
    requires drag < |files| && target < |files|
    ensures var r := Dragged(files, drag, target); var t := DropIndex(drag, target);
      |r| == |files| && multiset(r) == multiset(files) && t < |r| && r[t] == files[drag] &&
      r[..t] + r[t + 1..] == files[..drag] + files[drag + 1..]
  {
    var rest := files[..drag] + files[drag + 1..];
    var t := DropIndex(drag, target);
    var r := Dragged(files, drag, target);
    assert files == files[..drag] + [files[drag]] + files[drag + 1..];
    assert rest == rest[..t] + rest[t..];
    assert r[..t] == rest[..t];
    assert r[t + 1..] == rest[t..];
    calc {
      multiset(r);
      multiset(rest[..t]) + multiset{files[drag]} + multiset(rest[t..]);
      multiset(rest) + multiset{files[drag]};
      multiset(files);
    }
  }

  // ---------------------------------------------------------------------
  // move_selected_up / move_selected_down
  // ---------------------------------------------------------------------

  /** The files at the given positions, in the order of the positions. */
  function Pick(files: seq<string>, s: seq<nat>): (r: seq<string>)
    requires forall k :: 0 <= k < |s| ==> s[k] < |files|
    ensures |r| == |s|
  {
    seq(|s|, k requires 0 <= k < |s| => files[s[k]])
  }

  predicate Increasing(s: seq<nat>)
  {
    forall i, j :: 0 <= i < j < |s| ==> s[i] < s[j]
  }

  predicate Decreasing(s: seq<nat>)
  {
    forall i, j :: 0 <= i < j < |s| ==> s[i] > s[j]
  }

  /** `sorted(indices)` */
  function Ascending(indices: seq<nat>): (r: seq<nat>)
    ensures |r| == |indices|
  {
    SortByKey(indices, (x: nat) => x as int, IntLe, false)
  }

  lemma AscendingStrict(indices: seq<nat>)
    requires Distinct(indices)
    ensures multiset(Ascending(indices)) == multiset(indices)
    ensures Increasing(Ascending(indices))
  {
    var r := Ascending(indices);
    SortByKeyPermutation(indices, (x: nat) => x as int, IntLe, false);
    IntLeTotalPreorder();
    SortByKeySorted(indices, (x: nat) => x as int, IntLe, false);
    forall i, j | 0 <= i < j < |r| ensures r[i] < r[j] {
      RepeatCount(r, i, j);
      DistinctCount(indices, r[i]);
    }
  }

  /** What move_selected_up builds, for the selection in ascending order
      with its first position f >= 1: the files before f - 1, then the
      selected files, then the unselected files after f - 1. The file at
      f - 1 is not put back. */
  function MovedUp(files: seq<string>, s: seq<nat>): seq<string>
    requires s != [] && Increasing(s) && 1 <= s[0] && s[|s| - 1] < |files|
  {
    var f := s[0];
    files[..f - 1] + Pick(files, s) + KeepRange(files, Positions(s), f, |files|)
  }

  /** What move_selected_down builds, for the selection in descending order
      with its first (largest) position l below the last: the unselected
      files up to l, then the selected files from the largest position
      down, then the files after l + 1. The file at l + 1 is not put back. */
  function MovedDown(files: seq<string>, s: seq<nat>): seq<string>
    requires s != [] && Decreasing(s) && s[0] + 1 < |files|
  {
    var l := s[0];
    KeepRange(files, Positions(s), 0, l + 1) + Pick(files, s) + files[l + 2..]
  }

  /** move_selected_up on a selection of distinct positions of the list:
      no change when nothing is selected or the first file is. */
  function SelectionMovedUp(files: seq<string>, selection: seq<nat>): seq<string>
    requires Distinct(selection) && forall k :: 0 <= k < |selection| ==> selection[k] < |files|
  {
    if selection == [] then files
    else
      var s := Ascending(selection);
      AscendingStrict(selection);
      assert s[|s| - 1] in multiset(selection);
      if s[0] == 0 then files else MovedUp(files, s)
  }

  /** move_selected_down on a selection of distinct positions of the list:
      no change when nothing is selected or the last file is. */
  function SelectionMovedDown(files: seq<string>, selection: seq<nat>): seq<string>
    requires Distinct(selection) && forall k :: 0 <= k < |selection| ==> selection[k] < |files|
  {
    if selection == [] then files
    else
      var s := Descending(selection);
      DescendingStrict(selection);
      assert s[0] in multiset(selection);
      if s[0] == |files| - 1 then files else MovedDown(files, s)
  }

  /** `for idx in indices: new_files.append(files[idx])` */
  method AppendPicked(r0: seq<string>, files: seq<string>, s: seq<nat>) returns (r: seq<string>)
    requires forall k :: 0 <= k < |s| ==> s[k] < |files|
    ensures r == r0 + Pick(files, s)
  {
    r := r0;
    var k := 0;
    while k < |s|
      invariant 0 <= k <= |s|
      invariant r == r0 + Pick(files, s[..k])
    {
      assert Pick(files, s[..k + 1]) == Pick(files, s[..k]) + [files[s[k]]];
      r := r + [files[s[k]]];
      k := k + 1;
    }
    assert s[..k] == s;
  }

  /** `for idx in reversed(indices): new_files.insert(0, files[idx])` */
  method PrependPicked(r0: seq<string>, files: seq<string>, s: seq<nat>) returns (r: seq<string>)
    requires forall k :: 0 <= k < |s| ==> s[k] < |files|
    ensures r == Pick(files, s) + r0
  {
    r := r0;
    var k := |s|;
    while k > 0
      invariant 0 <= k <= |s|
      invariant r == Pick(files, s[k..]) + r0
    {
      k := k - 1;
      assert Pick(files, s[k..]) == [files[s[k]]] + Pick(files, s[k + 1..]);
      r := [files[s[k]]] + r;
    }
  }

  /** The loop of move_selected_up, for the selection in ascending order. */
  method MoveUp(files: seq<string>, s: seq<nat>) returns (r: seq<string>)
    requires s != [] && Increasing(s) && 1 <= s[0] && s[|s| - 1] < |files|
    ensures r == MovedUp(files, s)
  {
    var f := s[0];
    ghost var marked, block := Positions(s), files[..f - 1] + Pick(files, s);
    IncreasingBounds(s);
    r := [];
    var i := 0;
    var moved := false;
    while i < |files|
      invariant 0 <= i <= |files|
      invariant moved <==> i > f - 1
      invariant !moved ==> r == files[..i]
      invariant moved ==> r == block + KeepRange(files, marked, f, i)
    {
      if !moved && i == f - 1 {
        r := AppendPicked(r, files, s);
        moved := true;
      } else if i !in s {
        if moved {
          assert i !in marked;
        } else {
          assert files[..i + 1] == files[..i] + [files[i]];
        }
        r := r + [files[i]];
      } else {
        assert i in marked;
      }
      i := i + 1;
    }
  }

  /** The loop of move_selected_down, for the selection in descending order. */
  method MoveDown(files: seq<string>, s: seq<nat>) returns (r: seq<string>)
    requires s != [] && Decreasing(s) && s[0] + 1 < |files|
    ensures r == MovedDown(files, s)
  {
    var l := s[0];
    ghost var marked, block := Positions(s), Pick(files, s) + files[l + 2..];
    DecreasingBounds(s);
    r := [];
    var i: int := |files| - 1;
    var moved := false;
    while i >= 0
      invariant -1 <= i < |files|
      invariant moved <==> i < l + 1
      invariant !moved ==> r == files[i + 1..]
      invariant moved ==> r == KeepRange(files, marked, i + 1, l + 1) + block
    {
      if !moved && i == l + 1 {
        r := PrependPicked(r, files, s);
        moved := true;
      } else if i !in s {
        if moved {
          assert [files[i]] + KeepRange(files, marked, i + 1, l + 1) == KeepRange(files, marked, i, l + 1) by {
            assert i !in marked;
            KeepRangeCons(files, marked, i, l + 1);
          }
        } else {
          assert files[i..] == [files[i]] + files[i + 1..];
        }
        r := [files[i]] + r;
      } else {
        assert i in marked;
        assert KeepRange(files, marked, i + 1, l + 1) == KeepRange(files, marked, i, l + 1) by {
          KeepRangeCons(files, marked, i, l + 1);
        }
      }
      i := i - 1;
    }
  }

  /** A range whose marks above m are none, with m itself marked. */
  lemma KeepRangeLastMark(files: seq<string>, marked: set<nat>, lo: nat, m: nat, hi: nat)
    requires lo <= m < hi <= |files| && m in marked
    requires forall i :: m < i < hi ==> i !in marked
    ensures KeepRange(files, marked, lo, hi) == KeepRange(files, marked, lo, m) + files[m + 1..hi]
  {
    KeepRangeSplit(files, marked, lo, m, hi);
    assert KeepRange(files, marked, m, hi) == files[m + 1..hi] by {
      KeepRangeSplit(files, marked, m, m + 1, hi);
      assert KeepRange(files, marked, m, m + 1) == [];
      KeepRangeUnmarked(files, marked, m + 1, hi);
    }
  }

  lemma PositionsEnds(init: seq<nat>, x: nat)
    ensures Positions(init + [x]) == Positions(init) + {x}
    ensures Positions([x] + init) == Positions(init) + {x}
  {
  }

  /** An ascending selection lies between its first and last positions. */
  lemma IncreasingBounds(s: seq<nat>)
    requires s != [] && Increasing(s)
    ensures forall i :: i in Positions(s) ==> s[0] <= i <= s[|s| - 1]
  {
    forall k | 0 <= k < |s| ensures s[0] <= s[k] <= s[|s| - 1] {
      assert k == 0 || s[0] < s[k];
      assert k == |s| - 1 || s[k] < s[|s| - 1];
    }
  }

  /** A descending selection lies between its last and first positions. */
  lemma DecreasingBounds(s: seq<nat>)
    requires s != [] && Decreasing(s)
    ensures forall i :: i in Positions(s) ==> s[|s| - 1] <= i <= s[0]
  {
    forall k | 0 <= k < |s| ensures s[|s| - 1] <= s[k] <= s[0] {
      assert k == 0 || s[0] > s[k];
      assert k == |s| - 1 || s[k] > s[|s| - 1];
    }
  }

  /** With the highest mark `top` taken off, the unmarked files below it
      stay and those above it are all kept. */
  lemma KeepBelowTop(files: seq<string>, marked: set<nat>, below: set<nat>, top: nat, lo: nat, hi: nat)
    requires lo <= top < hi <= |files| && marked == below + {top}
    requires forall i :: i in marked ==> i <= top
    ensures KeepRange(files, marked, lo, hi) == KeepRange(files, below, lo, top) + files[top + 1..hi]
  {
    assert KeepRange(files, marked, lo, top) == KeepRange(files, below, lo, top) by {
      KeepRangeMarks(files, marked, below, lo, top);
    }
    KeepRangeLastMark(files, marked, lo, top, hi);
  }

  /** With the highest selected position `s[|s| - 1]` taken off, the
      unselected files below it stay and those above it are all kept. */
  lemma KeepBelowLast(files: seq<string>, s: seq<nat>, lo: nat, hi: nat)
    requires lo <= hi <= |files| && Increasing(s) && s != []
    requires forall k :: 0 <= k < |s| ==> lo <= s[k] < hi
    ensures KeepRange(files, Positions(s), lo, hi)
         == KeepRange(files, Positions(s[..|s| - 1]), lo, s[|s| - 1]) + files[s[|s| - 1] + 1..hi]
  {
    var last, init := s[|s| - 1], s[..|s| - 1];
    assert Positions(s) == Positions(init) + {last} by {
      assert s == init + [last];
      PositionsEnds(init, last);
    }
    IncreasingBounds(s);
    KeepBelowTop(files, Positions(s), Positions(init), last, lo, hi);
  }

  /** With the highest selected position `s[0]` of a descending selection
      taken off, the same. */
  lemma KeepBelowFirst(files: seq<string>, s: seq<nat>, lo: nat, hi: nat)
    requires lo <= hi <= |files| && Decreasing(s) && s != []
    requires forall k :: 0 <= k < |s| ==> lo <= s[k] < hi
    ensures KeepRange(files, Positions(s), lo, hi) == KeepRange(files, Positions(s[1..]), lo, s[0]) + files[s[0] + 1..hi]
  {
    var first, rest := s[0], s[1..];
    assert Positions(s) == Positions(rest) + {first} by {
      assert s == [first] + rest;
      PositionsEnds(rest, first);
    }
    DecreasingBounds(s);
    KeepBelowTop(files, Positions(s), Positions(rest), first, lo, hi);
  }

  lemma IncreasingInit(s: seq<nat>, init: seq<nat>, lo: nat, hi: nat)
    requires Increasing(s) && s != [] && forall k :: 0 <= k < |s| ==> lo <= s[k] < hi
    requires init == s[..|s| - 1]
    ensures Increasing(init)
    ensures forall k :: 0 <= k < |init| ==> lo <= init[k] < s[|s| - 1]
  {
  }

  lemma DecreasingRest(s: seq<nat>, rest: seq<nat>, lo: nat, hi: nat)
    requires Decreasing(s) && s != [] && forall k :: 0 <= k < |s| ==> lo <= s[k] < hi
    requires rest == s[1..]
    ensures Decreasing(rest)
    ensures forall k :: 0 <= k < |rest| ==> lo <= rest[k] < s[0]
  {
    assert forall k :: 0 <= k < |rest| ==> rest[k] == s[k + 1];
  }

  lemma PickSnoc(files: seq<string>, s: seq<nat>)
    requires s != [] && forall k :: 0 <= k < |s| ==> s[k] < |files|
    ensures Pick(files, s) == Pick(files, s[..|s| - 1]) + [files[s[|s| - 1]]]
  {
  }

  lemma PickCons(files: seq<string>, s: seq<nat>)
    requires s != [] && forall k :: 0 <= k < |s| ==> s[k] < |files|
    ensures Pick(files, s) == [files[s[0]]] + Pick(files, s[1..])
  {
  }

  lemma SliceAt<T>(a: seq<T>, lo: nat, m: nat, hi: nat)
    requires lo <= m < hi <= |a|
    ensures a[lo..hi] == a[lo..m] + [a[m]] + a[m + 1..hi]
  {
  }

  /** Counting one more selected file `x` between the files before it and
      the files after it. */
  lemma CountAround<T>(kr: seq<T>, kept: seq<T>, rest: seq<T>, pick: seq<T>, pinit: seq<T>, x: T,
                       whole: seq<T>, left: seq<T>)
    requires multiset(kept) + multiset(pinit) == multiset(left)
    requires kr == kept + rest && multiset(pick) == multiset(pinit) + multiset{x}
    requires whole == left + [x] + rest
    ensures multiset(kr) + multiset(pick) == multiset(whole)
  {
  }

  /** The unselected files of a range and the selected ones, all inside
      it and in ascending order, make up the range. */
  lemma {:induction false} KeepAndPickUp(files: seq<string>, s: seq<nat>, lo: nat, hi: nat)
    requires lo <= hi <= |files| && Increasing(s)
    requires forall k :: 0 <= k < |s| ==> lo <= s[k] < hi
    ensures multiset(KeepRange(files, Positions(s), lo, hi)) + multiset(Pick(files, s)) == multiset(files[lo..hi])
    decreases |s|
  {
    if s == [] {
      KeepRangeUnmarked(files, Positions(s), lo, hi);
    } else {
      var last := s[|s| - 1];
      var init := s[..|s| - 1];
      IncreasingInit(s, init, lo, hi);
      KeepAndPickUp(files, init, lo, last);
      KeepBelowLast(files, s, lo, hi);
      PickSnoc(files, s);
      SliceAt(files, lo, last, hi);
      CountAround(KeepRange(files, Positions(s), lo, hi), KeepRange(files, Positions(init), lo, last),
                  files[last + 1..hi], Pick(files, s), Pick(files, init), files[last], files[lo..hi], files[lo..last]);
    }
  }

  /** The same for a selection in descending order. */
  lemma {:induction false} KeepAndPickDown(files: seq<string>, s: seq<nat>, lo: nat, hi: nat)
    requires lo <= hi <= |files| && Decreasing(s)
    requires forall k :: 0 <= k < |s| ==> lo <= s[k] < hi
    ensures multiset(KeepRange(files, Positions(s), lo, hi)) + multiset(Pick(files, s)) == multiset(files[lo..hi])
    decreases |s|
  {
    if s == [] {
      KeepRangeUnmarked(files, Positions(s), lo, hi);
    } else {
      var first := s[0];
      var rest := s[1..];
      DecreasingRest(s, rest, lo, hi);
      KeepAndPickDown(files, rest, lo, first);
      KeepBelowFirst(files, s, lo, hi);
      PickCons(files, s);
      SliceAt(files, lo, first, hi);
      CountAround(KeepRange(files, Positions(s), lo, hi), KeepRange(files, Positions(rest), lo, first),
                  files[first + 1..hi], Pick(files, s), Pick(files, rest), files[first], files[lo..hi], files[lo..first]);
    }
  }

  /** Dropping the element at `i` and putting back, in place of the
      elements after it, two lists that count as those. */
  lemma DropAbove<T>(r: seq<T>, whole: seq<T>, i: nat, p: seq<T>, q: seq<T>)
    requires i < |whole| && multiset(p) + multiset(q) == multiset(whole[i + 1..|whole|])
    requires r == whole[..i] + p + q
    ensures |r| == |whole| - 1 && multiset(r) + multiset{whole[i]} == multiset(whole)
  {
    assert whole == whole[..i] + [whole[i]] + whole[i + 1..|whole|];
    assert |multiset(p) + multiset(q)| == |p| + |q|;
  }

  /** Dropping the element at `i` and putting back, in place of the
      elements before it, two lists that count as those. */
  lemma DropBelow<T>(r: seq<T>, whole: seq<T>, i: nat, p: seq<T>, q: seq<T>)
    requires i < |whole| && multiset(p) + multiset(q) == multiset(whole[0..i])
    requires r == p + q + whole[i + 1..]
    ensures |r| == |whole| - 1 && multiset(r) + multiset{whole[i]} == multiset(whole)
  {
    assert whole == whole[0..i] + [whole[i]] + whole[i + 1..];
    assert |multiset(p) + multiset(q)| == |p| + |q|;
  }

  /** move_selected_up as written loses one file, the one just above the
      selection: the list is one shorter and, counted with that file, holds
      the same files. */
  lemma MovedUpDropsNeighbour(files: seq<string>, s: seq<nat>)
    requires s != [] && Increasing(s) && 1 <= s[0] && s[|s| - 1] < |files|
    ensures |MovedUp(files, s)| == |files| - 1
    ensures multiset(MovedUp(files, s)) + multiset{files[s[0] - 1]} == multiset(files)
  {
    var f, n := s[0], |files|;
    assert forall k :: 0 <= k < |s| ==> f <= s[k] < n by {
      IncreasingBounds(s);
    }
    KeepAndPickUp(files, s, f, n);
    DropAbove(MovedUp(files, s), files, f - 1, Pick(files, s), KeepRange(files, Positions(s), f, n));
  }

  /** The selected files stand together, in ascending order, from f - 1. */
  lemma MovedUpBlock(files: seq<string>, s: seq<nat>)
    requires s != [] && Increasing(s) && 1 <= s[0] && s[|s| - 1] < |files|
    ensures forall k :: 0 <= k < |s| ==> MovedUp(files, s)[s[0] - 1 + k] == files[s[k]]
  {
  }

  /** Around the block, the files neither selected nor just above the
      selection keep their order. */
  lemma MovedUpOthers(files: seq<string>, s: seq<nat>)
    requires s != [] && Increasing(s) && 1 <= s[0] && s[|s| - 1] < |files|
    ensures var r := MovedUp(files, s); var f := s[0];
      |r| >= f - 1 + |s| &&
      r[..f - 1] + r[f - 1 + |s|..] == Without(files, Positions(s) + {f - 1})
  {
    var f, n := s[0], |files|;
    var r := MovedUp(files, s);
    assert r[..f - 1] == files[..f - 1] && r[f - 1 + |s|..] == KeepRange(files, Positions(s), f, n) by {
      assert r == files[..f - 1] + Pick(files, s) + KeepRange(files, Positions(s), f, n);
    }
    IncreasingBounds(s);
    WithoutNeighbourAbove(files, Positions(s), f);
  }

  /** Without the marks, all at `f` or above, and without position
      `f - 1`, the list is the files before `f - 1` and the unmarked ones
      from `f` on. */
  lemma WithoutNeighbourAbove(files: seq<string>, marked: set<nat>, f: nat)
    requires 1 <= f <= |files| && forall i :: i in marked ==> i >= f
    ensures Without(files, marked + {f - 1}) == files[..f - 1] + KeepRange(files, marked, f, |files|)
  {
    var n, marked' := |files|, marked + {f - 1};
    KeepRangeSplit(files, marked', 0, f - 1, n);
    assert KeepRange(files, marked', 0, f - 1) == files[..f - 1] by {
      KeepRangeUnmarked(files, marked', 0, f - 1);
    }
    assert KeepRange(files, marked', f - 1, n) == KeepRange(files, marked, f, n) by {
      KeepRangeCons(files, marked', f - 1, n);
      KeepRangeMarks(files, marked', marked, f, n);
    }
  }

  /** move_selected_down as written loses one file, the one just below the
      selection: the list is one shorter and, counted with that file, holds
      the same files. */
  lemma MovedDownDropsNeighbour(files: seq<string>, s: seq<nat>)
    requires s != [] && Decreasing(s) && s[0] + 1 < |files|
    ensures |MovedDown(files, s)| == |files| - 1
    ensures multiset(MovedDown(files, s)) + multiset{files[s[0] + 1]} == multiset(files)
  {
    var l := s[0];
    assert forall k :: 0 <= k < |s| ==> 0 <= s[k] < l + 1 by {
      DecreasingBounds(s);
    }
    KeepAndPickDown(files, s, 0, l + 1);
    DropBelow(MovedDown(files, s), files, l + 1, KeepRange(files, Positions(s), 0, l + 1), Pick(files, s));
  }

  /** The selected files stand together, from the largest position down,
      ending at position l; the unselected files up to l keep their order
      before them. */
  lemma MovedDownBlock(files: seq<string>, s: seq<nat>)
    requires s != [] && Decreasing(s) && s[0] + 1 < |files|
    ensures var r := MovedDown(files, s); var b := s[0] + 1 - |s|;
      0 <= b && |r| >= b + |s| &&
      (forall k :: 0 <= k < |s| ==> r[b + k] == files[s[k]]) &&
      r[..b] == KeepRange(files, Positions(s), 0, s[0] + 1)
  {
    MovedDownDropsNeighbour(files, s);
    var l := s[0];
    var front := KeepRange(files, Positions(s), 0, l + 1);
    assert |front| == l + 1 - |s| by {
      var r := MovedDown(files, s);
      assert |r| == |front| + |s| + (|files| - l - 2);
    }
  }

  /** Around the block, the files neither selected nor just below the
      selection keep their order. */
  lemma MovedDownOthers(files: seq<string>, s: seq<nat>)
    requires s != [] && Decreasing(s) && s[0] + 1 < |files|
    ensures var r := MovedDown(files, s); var b := s[0] + 1 - |s|;
      0 <= b && |r| >= b + |s| &&
      r[..b] + r[b + |s|..] == Without(files, Positions(s) + {s[0] + 1})
  {
    MovedDownBlock(files, s);
    var l := s[0];
    var n := |files|;
    var S := Positions(s);
    var S' := S + {l + 1};
    var r := MovedDown(files, s);
    var b := l + 1 - |s|;
    assert r[b + |s|..] == files[l + 2..];
    assert KeepRange(files, S', 0, l + 1) == KeepRange(files, S, 0, l + 1) by {
      KeepRangeMarks(files, S', S, 0, l + 1);
    }
    assert KeepRange(files, S', l + 1, n) == files[l + 2..] by {
      forall k | 0 <= k < |s| ensures s[k] <= l {
        assert k == 0 || s[0] > s[k];
      }
      assert forall i :: l + 1 < i < n ==> i !in S';
      KeepRangeLastMark(files, S', l + 1, l + 1, n);
      assert KeepRange(files, S', l + 1, l + 1) == [];
    }
    KeepRangeSplit(files, S', 0, l + 1, n);
  }

  // ---------------------------------------------------------------------
  // No file twice
  // ---------------------------------------------------------------------

  /** A list drawn from a list without repeats, each file at most as often,
      has no repeats either. */
  lemma DistinctWithin<T>(a: seq<T>, b: seq<T>)
    requires Distinct(b) && multiset(a) <= multiset(b)
    ensures Distinct(a)
  {
    forall i, j | 0 <= i < j < |a| ensures a[i] != a[j] {
      RepeatCount(a, i, j);
      DistinctCount(b, a[i]);
    }
  }

  lemma DistinctSnoc<T>(s: seq<T>, x: T)
    requires Distinct(s) && x !in s
    ensures Distinct(s + [x])
  {
  }

  /** Dropping files from a list without repeats leaves none. */
  lemma {:induction false} KeepRangeDistinct(files: seq<string>, marked: set<nat>, lo: nat, hi: nat)
    requires hi <= |files| && Distinct(files)
    ensures Distinct(KeepRange(files, marked, lo, hi))
    decreases hi - lo
  {
    if hi > lo {
      KeepRangeDistinct(files, marked, lo, hi - 1);
      if hi - 1 !in marked {
        var before := KeepRange(files, marked, lo, hi - 1);
        assert files[hi - 1] !in before by {
          KeepRangeMembers(files, marked, lo, hi - 1, files[hi - 1]);
        }
        DistinctSnoc(before, files[hi - 1]);
      }
    }
  }

  /** Every edit of the list keeps it free of repeats. */
  lemma EditsKeepDistinct(files: seq<string>)
    requires Distinct(files)
    ensures forall marked :: Distinct(Without(files, marked))
    ensures forall drag: nat, target: nat :: drag < |files| && target < |files| ==> Distinct(Dragged(files, drag, target))
    ensures forall s :: s != [] && Increasing(s) && 1 <= s[0] && s[|s| - 1] < |files| ==> Distinct(MovedUp(files, s))
    ensures forall s :: s != [] && Decreasing(s) && s[0] + 1 < |files| ==> Distinct(MovedDown(files, s))
  {
    forall marked ensures Distinct(Without(files, marked)) {
      KeepRangeDistinct(files, marked, 0, |files|);
    }
    forall drag: nat, target: nat | drag < |files| && target < |files| ensures Distinct(Dragged(files, drag, target)) {
      DraggedMoves(files, drag, target);
      DistinctWithin(Dragged(files, drag, target), files);
    }
    forall s | s != [] && Increasing(s) && 1 <= s[0] && s[|s| - 1] < |files| ensures Distinct(MovedUp(files, s)) {
      MovedUpDropsNeighbour(files, s);
      DistinctWithin(MovedUp(files, s), files);
    }
    forall s | s != [] && Decreasing(s) && s[0] + 1 < |files| ensures Distinct(MovedDown(files, s)) {
      MovedDownDropsNeighbour(files, s);
      DistinctWithin(MovedDown(files, s), files);
    }
  }
}
