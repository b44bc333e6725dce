/** The comparison `Git.status` and `Git.pasivestatus` make between the
    snapshot saved by the last commit and the one just built: every current
    path is Edited, Added or (for `status` only) unchanged, in the current
    snapshot's order; then every previous path missing now is Deleted, in the
    previous snapshot's order. Each report line carries the file's basename. */
module Diff {
  import opened Wrappers
  import opened Snapshots

  datatype FileStatus = Edited | Added | NoChanges | Deleted

  datatype Line = Line(path: string, status: FileStatus)

  /** The verdict for one current path with hash `hash`. */
  function Classify(prev: Snapshot, path: string, hash: string): FileStatus
  {
    match Lookup(prev, path)
    case None => Added
    case Some(previousHash) => if hash != previousHash then Edited else NoChanges
  }

  /** The line (if any) reported for one current entry: unchanged paths are
      reported only when `includeUnchanged` (as `status` does and
      `pasivestatus` does not). */
  function Emit(prev: Snapshot, e: Entry, includeUnchanged: bool): seq<Line>
  {
    var status := Classify(prev, e.path, e.hash);
    if status == NoChanges && !includeUnchanged then [] else [Line(e.path, status)]
  }

  /** The lines for the current snapshot, in its order. */
  function CurrentLines(prev: Snapshot, cur: Snapshot, includeUnchanged: bool): (ls: seq<Line>)
    ensures |ls| <= |cur|
    ensures forall i :: 0 <= i < |ls| ==> ls[i].status != Deleted
    ensures forall i :: 0 <= i < |ls| ==> includeUnchanged || ls[i].status != NoChanges
  {
    if cur == [] then []
    else CurrentLines(prev, cur[..|cur| - 1], includeUnchanged) + Emit(prev, cur[|cur| - 1], includeUnchanged)
  }

  /** The line (if any) reported for one previous path. */
  function EmitDeleted(cur: Snapshot, path: string): seq<Line>
  {
    if HasKey(cur, path) then [] else [Line(path, Deleted)]
  }

  /** The Deleted lines: previous paths the current snapshot lacks. */
  function DeletedLines(prev: Snapshot, cur: Snapshot): (ls: seq<Line>)
    ensures |ls| <= |prev|
    ensures forall i :: 0 <= i < |ls| ==> ls[i].status == Deleted
  {
    if prev == [] then []
    else
      DeletedLines(prev[..|prev| - 1], cur) + EmitDeleted(cur, prev[|prev| - 1].path)
  }

  /** When every current path is held before with another hash, the first
      loop reports each of them Edited, in order. */
  lemma {:induction false} CurrentLinesAllEdited(prev: Snapshot, cur: Snapshot, includeUnchanged: bool)
    requires forall i :: 0 <= i < |cur| ==> Classify(prev, cur[i].path, cur[i].hash) == Edited
    ensures |CurrentLines(prev, cur, includeUnchanged)| == |cur|
    ensures forall i :: 0 <= i < |cur| ==> CurrentLines(prev, cur, includeUnchanged)[i] == Line(cur[i].path, Edited)
  {
    if cur != [] {
      var init := cur[..|cur| - 1];
      CurrentLinesAllEdited(prev, init, includeUnchanged);
      var last := cur[|cur| - 1];
      assert Emit(prev, last, includeUnchanged) == [Line(last.path, Edited)];
      assert CurrentLines(prev, cur, includeUnchanged)
        == CurrentLines(prev, init, includeUnchanged) + [Line(last.path, Edited)];
    }
  }

  /** When the current snapshot still holds every previous path, the second
      loop reports nothing. */
  lemma {:induction false} NoneDeleted(prev: Snapshot, cur: Snapshot)
    requires forall i :: 0 <= i < |prev| ==> HasKey(cur, prev[i].path)
    ensures DeletedLines(prev, cur) == []
  {
    if prev != [] {
      NoneDeleted(prev[..|prev| - 1], cur);
    }
  }

  /** The whole comparison, by full path: all current-path lines come before
      every Deleted line. */
  function Compare(prev: Snapshot, cur: Snapshot, includeUnchanged: bool): (ls: seq<Line>)
    ensures forall i :: 0 <= i < |ls| ==>
      (ls[i].status == Deleted <==> i >= |CurrentLines(prev, cur, includeUnchanged)|)
  {
    CurrentLines(prev, cur, includeUnchanged) + DeletedLines(prev, cur)
  }

  /** `os.path.basename` (POSIX): the longest suffix of `p` without a '/'. */
  function Basename(p: string): (name: string)
    ensures '/' !in name
    ensures |name| <= |p| && p[|p| - |name|..] == name
    ensures |name| < |p| ==> p[|p| - |name| - 1] == '/'
  {
    if p == [] || p[|p| - 1] == '/' then ""
    else
      var init := p[..|p| - 1];
      var name := Basename(init);
      assert p[|p| - |name| - 1..] == init[|init| - |name|..] + [p[|p| - 1]];
      name + [p[|p| - 1]]
  }

  /** A line as printed: its path cut down to its basename. */
  function Shown(l: Line): Line
  {
    Line(Basename(l.path), l.status)
  }

  /** The lines as printed. */
  function Printed(ls: seq<Line>): (out: seq<Line>)
  {
    seq(|ls|, i requires 0 <= i < |ls| => Shown(ls[i]))
  }

  /** The paths of the lines, in order. */
  function Paths(ls: seq<Line>): seq<string>
  {
    seq(|ls|, i requires 0 <= i < |ls| => ls[i].path)
  }

  /** The lines of `ls` that report a change. */
  function Changes(ls: seq<Line>): (out: seq<Line>)
    ensures |out| <= |ls|
    ensures forall i :: 0 <= i < |out| ==> out[i].status != NoChanges
  {
    if ls == [] then []
    else
      var l := ls[|ls| - 1];
      Changes(ls[..|ls| - 1]) + (if l.status == NoChanges then [] else [l])
  }

  lemma PrintedSingle(l: Line)
    ensures Printed([l]) == [Shown(l)]
  {
  }

  lemma PrintedAppend(a: seq<Line>, b: seq<Line>)
    ensures Printed(a + b) == Printed(a) + Printed(b)
  {
    var l, r := Printed(a + b), Printed(a) + Printed(b);
    assert |l| == |r|;
    forall i | 0 <= i < |l| ensures l[i] == r[i] {
      if i < |a| {
        assert l[i] == Shown(a[i]) == r[i];
      } else {
        assert l[i] == Shown(b[i - |a|]) == r[i];
      }
    }
  }

  lemma CurrentLinesStep(prev: Snapshot, cur: Snapshot, i: nat, includeUnchanged: bool)
    requires i < |cur|
    ensures Printed(CurrentLines(prev, cur[..i + 1], includeUnchanged))
      == Printed(CurrentLines(prev, cur[..i], includeUnchanged)) + Printed(Emit(prev, cur[i], includeUnchanged))
  {
    assert cur[..i + 1][..i] == cur[..i];
    PrintedAppend(CurrentLines(prev, cur[..i], includeUnchanged), Emit(prev, cur[i], includeUnchanged));
  }

  lemma DeletedLinesStep(prev: Snapshot, cur: Snapshot, i: nat)
    requires i < |prev|
    ensures Printed(DeletedLines(prev[..i + 1], cur))
      == Printed(DeletedLines(prev[..i], cur)) + Printed(EmitDeleted(cur, prev[i].path))
  {
    assert prev[..i + 1][..i] == prev[..i];
    PrintedAppend(DeletedLines(prev[..i], cur), EmitDeleted(cur, prev[i].path));
  }

  /** The body of the first loop of `status` and `pasivestatus`: the printed
      line for one current entry. */
  method ReportEntry(prev: Snapshot, e: Entry, includeUnchanged: bool) returns (line: seq<Line>)
    ensures line == Printed(Emit(prev, e, includeUnchanged))
  {
    var emitted := Emit(prev, e, includeUnchanged);
    line := [];
    if HasKey(prev, e.path) {
      var previousHash := Lookup(prev, e.path).value;
      if e.hash != previousHash {
        assert emitted == [Line(e.path, Edited)];
        PrintedSingle(emitted[0]);
        line := [Line(Basename(e.path), Edited)];
      } else if includeUnchanged {
        assert emitted == [Line(e.path, NoChanges)];
        PrintedSingle(emitted[0]);
        line := [Line(Basename(e.path), NoChanges)];
      } else {
        assert emitted == [];
      }
    } else {
      assert emitted == [Line(e.path, Added)];
      PrintedSingle(emitted[0]);
      line := [Line(Basename(e.path), Added)];
    }
  }

  /** The first loop of `status` and `pasivestatus`: one line per current
      entry that is reported, in the current snapshot's order. */
  method ReportCurrent(prev: Snapshot, cur: Snapshot, includeUnchanged: bool) returns (out: seq<Line>)
    ensures out == Printed(CurrentLines(prev, cur, includeUnchanged))
  {
    out := [];
    for i := 0 to |cur|
      invariant out == Printed(CurrentLines(prev, cur[..i], includeUnchanged))
    {
      var line := ReportEntry(prev, cur[i], includeUnchanged);
      CurrentLinesStep(prev, cur, i, includeUnchanged);
      out := out + line;
    }
    assert cur[..|cur|] == cur;
  }

  /** The second loop of `status` and `pasivestatus`: a Deleted line for each
      previous path the current snapshot lacks, in the previous snapshot's order. */
  method ReportDeleted(prev: Snapshot, cur: Snapshot) returns (out: seq<Line>)
    ensures out == Printed(DeletedLines(prev, cur))
  {
    out := [];
    for i := 0 to |prev|
      invariant out == Printed(DeletedLines(prev[..i], cur))
    {
      var line: seq<Line> := [];
      if !HasKey(cur, prev[i].path) {
        PrintedSingle(Line(prev[i].path, Deleted));
        line := [Line(Basename(prev[i].path), Deleted)];
      }
      DeletedLinesStep(prev, cur, i);
      out := out + line;
    }
    assert prev[..|prev|] == prev;
  }

  /** `status` (with `includeUnchanged`) and `pasivestatus` (without): the
      current-snapshot loop, then the previous-snapshot loop. */
  method Report(prev: Snapshot, cur: Snapshot, includeUnchanged: bool) returns (out: seq<Line>)
    ensures out == Printed(Compare(prev, cur, includeUnchanged))
  {
    var current := ReportCurrent(prev, cur, includeUnchanged);
    var deleted := ReportDeleted(prev, cur);
    PrintedAppend(CurrentLines(prev, cur, includeUnchanged), DeletedLines(prev, cur));
    out := current + deleted;
  }

  lemma {:induction false} CurrentLinesAll(prev: Snapshot, cur: Snapshot)
    ensures |CurrentLines(prev, cur, true)| == |cur|
    ensures forall i :: 0 <= i < |cur| ==>
      CurrentLines(prev, cur, true)[i] == Line(cur[i].path, Classify(prev, cur[i].path, cur[i].hash))
  {
    if cur != [] {
      var init := cur[..|cur| - 1];
      CurrentLinesAll(prev, init);
      assert forall i :: 0 <= i < |init| ==> init[i] == cur[i];
    }
  }

  /** `status` gives each current path exactly one line, in the current
      snapshot's order: Added when the previous snapshot lacks it, Edited when
      its hash differs from the previous one, "No changes" when they are equal. */
  lemma StatusClassifiesEveryPath(prev: Snapshot, cur: Snapshot)
    ensures var ls := CurrentLines(prev, cur, true);
      |ls| == |cur| &&
      forall i :: 0 <= i < |cur| ==>
        && ls[i].path == cur[i].path
        && (ls[i].status == Added <==> !HasKey(prev, cur[i].path))
        && (ls[i].status == Edited <==> HasKey(prev, cur[i].path) && Lookup(prev, cur[i].path) != Some(cur[i].hash))
        && (ls[i].status == NoChanges <==> Lookup(prev, cur[i].path) == Some(cur[i].hash))
  {
    CurrentLinesAll(prev, cur);
  }

  lemma {:induction false} ChangesAppend(a: seq<Line>, b: seq<Line>)
    ensures Changes(a + b) == Changes(a) + Changes(b)
    decreases |b|
  {
    if b == [] {
      assert a + b == a;
    } else {
      var init := b[..|b| - 1];
      assert (a + b)[..|a + b| - 1] == a + init;
      ChangesAppend(a, init);
    }
  }

  lemma {:induction false} ChangesKeepsChanges(ls: seq<Line>)
    requires forall i :: 0 <= i < |ls| ==> ls[i].status != NoChanges
    ensures Changes(ls) == ls
  {
    if ls != [] {
      ChangesKeepsChanges(ls[..|ls| - 1]);
    }
  }

  lemma {:induction false} ChangesDropsUnchanged(ls: seq<Line>)
    requires forall i :: 0 <= i < |ls| ==> ls[i].status == NoChanges
    ensures Changes(ls) == []
  {
    if ls != [] {
      ChangesDropsUnchanged(ls[..|ls| - 1]);
    }
  }

  lemma {:induction false} CurrentLinesQuiet(prev: Snapshot, cur: Snapshot)
    ensures CurrentLines(prev, cur, false) == Changes(CurrentLines(prev, cur, true))
  {
    if cur != [] {
      var init := cur[..|cur| - 1];
      CurrentLinesQuiet(prev, init);
      ChangesAppend(CurrentLines(prev, init, true), Emit(prev, cur[|cur| - 1], true));
    }
  }

  /** `pasivestatus` reports what `status` reports, minus the "No changes"
      lines, and in the same order. */
  lemma PassiveIsStatusWithoutUnchanged(prev: Snapshot, cur: Snapshot)
    ensures Compare(prev, cur, false) == Changes(Compare(prev, cur, true))
  {
    CurrentLinesQuiet(prev, cur);
    ChangesAppend(CurrentLines(prev, cur, true), DeletedLines(prev, cur));
    ChangesKeepsChanges(DeletedLines(prev, cur));
  }

  lemma PrintedInit(ls: seq<Line>)
    requires ls != []
    ensures Printed(ls) == Printed(ls[..|ls| - 1]) + [Shown(ls[|ls| - 1])]
  {
    assert ls == ls[..|ls| - 1] + [ls[|ls| - 1]];
    PrintedAppend(ls[..|ls| - 1], [ls[|ls| - 1]]);
    PrintedSingle(ls[|ls| - 1]);
  }

  lemma ChangesSnoc(ls: seq<Line>, x: Line)
    ensures Changes(ls + [x]) == Changes(ls) + (if x.status == NoChanges then [] else [x])
  {
    assert (ls + [x])[..|ls|] == ls;
  }

  lemma {:induction false} PrintedChanges(ls: seq<Line>)
    ensures Printed(Changes(ls)) == Changes(Printed(ls))
  {
    if ls != [] {
      var init, x := ls[..|ls| - 1], ls[|ls| - 1];
      var tail := if x.status == NoChanges then [] else [x];
      assert Printed(Changes(ls)) == Printed(Changes(init)) + Printed(tail) by {
        assert Changes(ls) == Changes(init) + tail;
        PrintedAppend(Changes(init), tail);
      }
      assert Printed(tail) == if x.status == NoChanges then [] else [Shown(x)] by {
        PrintedSingle(x);
      }
      PrintedChanges(init);
      assert Changes(Printed(ls)) == Changes(Printed(init)) + Printed(tail) by {
        PrintedInit(ls);
        ChangesSnoc(Printed(init), Shown(x));
      }
    }
  }

  /** The printed output of `pasivestatus` is that of `status` without its
      "No changes" lines. */
  lemma PassiveReportIsStatusReportWithoutUnchanged(prev: Snapshot, cur: Snapshot)
    ensures Printed(Compare(prev, cur, false)) == Changes(Printed(Compare(prev, cur, true)))
  {
    PassiveIsStatusWithoutUnchanged(prev, cur);
    PrintedChanges(Compare(prev, cur, true));
  }

  /** A path gets a Deleted line exactly when the previous snapshot has it and
      the current one does not. */
  lemma {:induction false} DeletedExactly(prev: Snapshot, cur: Snapshot, p: string)
    ensures p in Paths(DeletedLines(prev, cur)) <==> HasKey(prev, p) && !HasKey(cur, p)
  {
    if prev != [] {
      var init := prev[..|prev| - 1];
      DeletedExactly(init, cur, p);
      var last := prev[|prev| - 1].path;
      var d, e := DeletedLines(init, cur), EmitDeleted(cur, last);
      assert Paths(d + e) == Paths(d) + Paths(e);
      assert Paths(e) == if HasKey(cur, last) then [] else [last];
      assert Keys(prev) == Keys(init) + [prev[|prev| - 1].path];
    }
  }

  lemma IndexOfPrefix(s: Snapshot, n: nat, k: string)
    requires n <= |s| && HasKey(s[..n], k)
    ensures HasKey(s, k) && IndexOf(s, k) == IndexOf(s[..n], k)
  {
    var i := IndexOf(s[..n], k);
    assert Keys(s)[i] == k;
    var j := IndexOf(s, k);
    assert !(j < i);
  }

  /** Every line's path is a key of `prev`, and the lines come in the order
      of those keys in `prev`. */
  ghost predicate InOrderOf(prev: Snapshot, d: seq<Line>)
  {
    forall i, j :: 0 <= i < j < |d| ==>
      HasKey(prev, d[i].path) && HasKey(prev, d[j].path) && IndexOf(prev, d[i].path) < IndexOf(prev, d[j].path)
  }

  /** Deleted lines follow the previous snapshot's order. */
  lemma {:induction false} DeletedInPreviousOrder(prev: Snapshot, cur: Snapshot)
    requires DistinctKeys(prev)
    ensures InOrderOf(prev, DeletedLines(prev, cur))
  {
    if prev != [] {
      var n := |prev| - 1;
      var init := prev[..n];
      DeletedInPreviousOrder(init, cur);
      var d0 := DeletedLines(init, cur);
      var d := DeletedLines(prev, cur);
      assert d == d0 + EmitDeleted(cur, prev[n].path);
      forall i | 0 <= i < |d0|
        ensures HasKey(init, d0[i].path) && HasKey(prev, d0[i].path)
        ensures IndexOf(prev, d0[i].path) == IndexOf(init, d0[i].path) < n
      {
        DeletedExactly(init, cur, d0[i].path);
        assert Paths(d0)[i] == d0[i].path;
        IndexOfPrefix(prev, n, d0[i].path);
      }
      if |d| > |d0| {
        assert d[|d0|].path == prev[n].path;
        assert Keys(prev)[n] == prev[n].path;
        assert IndexOf(prev, prev[n].path) == n;
      }
      forall i, j | 0 <= i < j < |d|
        ensures HasKey(prev, d[i].path) && HasKey(prev, d[j].path) && IndexOf(prev, d[i].path) < IndexOf(prev, d[j].path)
      {
        assert d[i] == d0[i];
        if j < |d0| {
          assert InOrderOf(init, d0);
          assert d[j] == d0[j];
        }
      }
    }
  }

  /** Comparing a snapshot with itself: `pasivestatus` reports nothing and
      `status` reports every path as "No changes", in order. */
  lemma SelfCompare(s: Snapshot)
    requires DistinctKeys(s)
    ensures Compare(s, s, false) == []
    ensures |Compare(s, s, true)| == |s|
    ensures forall i :: 0 <= i < |s| ==> Compare(s, s, true)[i] == Line(s[i].path, NoChanges)
  {
    var d := DeletedLines(s, s);
    if d != [] {
      assert Paths(d)[0] == d[0].path;
      DeletedExactly(s, s, d[0].path);
    }
    CurrentLinesAll(s, s);
    forall i | 0 <= i < |s| ensures CurrentLines(s, s, true)[i] == Line(s[i].path, NoChanges) {
      LookupEntry(s, i);
    }
    PassiveIsStatusWithoutUnchanged(s, s);
    ChangesDropsUnchanged(Compare(s, s, true));
  }

  /** Against an empty previous snapshot (no snapshot file yet) every current
      path is Added, in order, and nothing is Deleted, quiet or not. */
  lemma FirstRunAllAdded(cur: Snapshot, includeUnchanged: bool)
    ensures |Compare([], cur, includeUnchanged)| == |cur|
    ensures forall i :: 0 <= i < |cur| ==> Compare([], cur, includeUnchanged)[i] == Line(cur[i].path, Added)
  {
    CurrentLinesAll([], cur);
    forall i | 0 <= i < |cur| ensures Classify([], cur[i].path, cur[i].hash) == Added {
      assert !HasKey([], cur[i].path);
    }
    ChangesKeepsChanges(CurrentLines([], cur, true));
    CurrentLinesQuiet([], cur);
  }
}
