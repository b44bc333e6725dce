/** What `Git.commit` followed by `Git.pasivestatus` reports when no file
    changed in between. `commit` saves the snapshot it builds from `os.walk`
    with `saveSnapshot`; `pasivestatus` loads it back with
    `loadPreviousSnapshot` and compares it with a snapshot built the same way.
    With `includeUnchanged` set, the comparison is the one `status` would make
    if it built its snapshot the way `commit` does (it keys its snapshot by
    the bare names `os.listdir` gives instead). */
module Git {
  import opened Wrappers
  import opened Snapshots
  import opened SnapshotStore
  import opened Diff

  /** As written, the loaded hashes keep their line's newline, so right after a
      commit `pasivestatus` reports every file Edited although nothing
      changed (and so would `status`'s comparison, given the same keys). */
  lemma CommitThenStatusReportsAllEdited(cur: Snapshot, includeUnchanged: bool)
    requires DistinctKeys(cur)
    requires forall i :: 0 <= i < |cur| ==> Storable(cur[i])
    ensures var ls := Compare(LoadPrevious(Some(Serialize(cur))), cur, includeUnchanged);
      |ls| == |cur| &&
      forall i :: 0 <= i < |cur| ==> ls[i] == Line(cur[i].path, Edited)
  {
    var prev := LoadPrevious(Some(Serialize(cur)));
    LoadAfterSaveKeepsNewline(cur);
    LoadDistinct(PyStr.Lines(Serialize(cur)));
    forall i | 0 <= i < |cur| ensures Classify(prev, cur[i].path, cur[i].hash) == Edited {
      LookupEntry(prev, i);
      assert |cur[i].hash + "\n"| != |cur[i].hash|;
    }
    forall i | 0 <= i < |prev| ensures HasKey(cur, prev[i].path) {
      assert Keys(cur)[i] == prev[i].path;
    }
    CurrentLinesAllEdited(prev, cur, includeUnchanged);
    NoneDeleted(prev, cur);
    assert Compare(prev, cur, includeUnchanged) == CurrentLines(prev, cur, includeUnchanged) + [];
  }

  /** With the newline stripped on load, a commit followed by a comparison
      with the same files reports nothing from `pasivestatus`, and "No
      changes" for every path when unchanged paths are included. */
  lemma CommitThenStatusReportsNoChanges(cur: Snapshot)
    requires DistinctKeys(cur)
    requires forall i :: 0 <= i < |cur| ==> Storable(cur[i])
    ensures Compare(LoadPreviousFixed(Some(Serialize(cur))), cur, false) == []
    ensures var ls := Compare(LoadPreviousFixed(Some(Serialize(cur))), cur, true);
      |ls| == |cur| &&
      forall i :: 0 <= i < |cur| ==> ls[i] == Line(cur[i].path, NoChanges)
  {
    LoadFixedAfterSave(cur);
    SelfCompare(cur);
  }
}
