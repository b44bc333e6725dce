/** The snapshot file: `saveSnapshot` writes one `path|hash` line per entry,
    `loadPreviousSnapshot` reads it back line by line. The file's text is the
    string Python's text layer reads and writes; `None` stands for a missing
    file. */
module SnapshotStore {
  import opened Wrappers
  import opened PyStr
  import opened Snapshots

  /** The line written for one entry. */
  function Record(e: Entry): string
  {
    e.path + "|" + e.hash + "\n"
  }

  function Records(s: Snapshot): seq<string>
  {
    seq(|s|, i requires 0 <= i < |s| => Record(s[i]))
  }

  /** The text of the snapshot file after `saveSnapshot(s)`. */
  function Serialize(s: Snapshot): string
  {
    Concat(Records(s))
  }

  /** `saveSnapshot`: truncate the file, then write one line per entry in the
      snapshot's order. */
  method SaveSnapshot(s: Snapshot) returns (text: string)
    ensures text == Serialize(s)
  {
    text := "";
    for i := 0 to |s|
      invariant text == Serialize(s[..i])
    {
      assert Records(s[..i + 1]) == Records(s[..i]) + [Record(s[i])];
      ConcatAppend(Records(s[..i]), [Record(s[i])]);
      text := text + Record(s[i]);
    }
    assert s[..|s|] == s;
  }

  /** An entry the file format can hold: neither field contains the '|'
      delimiter or a newline. */
  predicate Storable(e: Entry)
  {
    '|' !in e.path && '|' !in e.hash && '\n' !in e.path && '\n' !in e.hash
  }

  /** Read back, the saved file is exactly one `path|hash\n` line per entry, in
      the snapshot's order. */
  lemma SaveWritesOneLinePerEntry(s: Snapshot)
    requires forall i :: 0 <= i < |s| ==> Storable(s[i])
    ensures Lines(Serialize(s)) == Records(s)
  {
    var rs := Records(s);
    forall i | 0 <= i < |rs| ensures IsFullLine(rs[i]) {
      var r := rs[i];
      assert r[..|r| - 1] == s[i].path + "|" + s[i].hash;
    }
    LinesOfConcat(rs);
  }

  /** One pass of `loadPreviousSnapshot`'s loop: a line splitting into exactly
      two fields on '|' sets the first field's key to the second field (the
      line's newline included); any other line is skipped. */
  function LoadLine(acc: Snapshot, line: string): Snapshot
  {
    var parts := Split(line, '|');
    if |parts| == 2 then Assign(acc, parts[0], parts[1]) else acc
  }

  /** The dictionary built from the lines, in order. */
  function LoadLines(lines: seq<string>): Snapshot
  {
    if lines == [] then []
    else LoadLine(LoadLines(lines[..|lines| - 1]), lines[|lines| - 1])
  }

  /** `loadPreviousSnapshot` as written: an empty dictionary when there is no
      file. */
  function LoadPrevious(file: Option<string>): (previous: Snapshot)
    ensures file.None? ==> previous == []
    ensures DistinctKeys(previous)
  {
    match file
    case None => []
    case Some(text) =>
      LoadDistinct(Lines(text));
      LoadLines(Lines(text))
  }

  /** `loadPreviousSnapshot` with each line's newline removed before it is
      split, so that the loaded hashes are the saved ones. */
  function LoadPreviousFixed(file: Option<string>): (previous: Snapshot)
    ensures file.None? ==> previous == []
    ensures DistinctKeys(previous)
  {
    match file
    case None => []
    case Some(text) =>
      LoadDistinct(Stripped(Lines(text)));
      LoadLines(Stripped(Lines(text)))
  }

  /** The lines with their newlines removed. */
  function Stripped(lines: seq<string>): seq<string>
  {
    seq(|lines|, i requires 0 <= i < |lines| => StripNewline(lines[i]))
  }

  /** The line is one the loader keeps, with key `k`. */
  predicate IsRecordFor(line: string, k: string)
  {
    var parts := Split(line, '|');
    |parts| == 2 && parts[0] == k
  }

  lemma {:induction false} LoadDistinct(lines: seq<string>)
    ensures DistinctKeys(LoadLines(lines))
  {
    if lines != [] {
      var line := lines[|lines| - 1];
      LoadDistinct(lines[..|lines| - 1]);
      var parts := Split(line, '|');
      if |parts| == 2 {
        AssignDistinct(LoadLines(lines[..|lines| - 1]), parts[0], parts[1]);
      }
    }
  }

  /** `loadPreviousSnapshot` (the loop over the file's lines). */
  method LoadPreviousSnapshot(file: Option<string>) returns (previous: Snapshot)
    ensures previous == LoadPrevious(file)
    ensures DistinctKeys(previous)
  {
    previous := [];
    if file.Some? {
      var lines := Lines(file.value);
      for i := 0 to |lines|
        invariant previous == LoadLines(lines[..i])
      {
        var parts := Split(lines[i], '|');
        if |parts| == 2 {
          previous := Assign(previous, parts[0], parts[1]);
        }
        assert lines[..i + 1][..i] == lines[..i];
      }
      assert lines[..|lines|] == lines;
      LoadDistinct(lines);
    }
  }

  /** A key is loaded exactly when some line is a two-field record for it. */
  lemma {:induction false} LoadKeys(lines: seq<string>, k: string)
    ensures HasKey(LoadLines(lines), k) <==> exists i :: 0 <= i < |lines| && IsRecordFor(lines[i], k)
  {
    if lines != [] {
      var init, line := lines[..|lines| - 1], lines[|lines| - 1];
      LoadKeys(init, k);
      LoadLineKeys(LoadLines(init), line, k);
      SomeRecordSnoc(init, line, k);
      assert lines == init + [line];
    }
  }

  /** One line adds its key to the dictionary's keys when it is a record. */
  lemma LoadLineKeys(acc: Snapshot, line: string, k: string)
    ensures HasKey(LoadLine(acc, line), k) <==> HasKey(acc, k) || IsRecordFor(line, k)
  {
    var parts := Split(line, '|');
    if |parts| == 2 {
      KeysOfAssign(acc, parts[0], parts[1]);
    }
  }

  lemma SomeRecordSnoc(init: seq<string>, line: string, k: string)
    ensures (exists i :: 0 <= i < |init + [line]| && IsRecordFor((init + [line])[i], k))
      <==> (exists i :: 0 <= i < |init| && IsRecordFor(init[i], k)) || IsRecordFor(line, k)
  {
    var lines := init + [line];
    if exists i :: 0 <= i < |lines| && IsRecordFor(lines[i], k) {
      var i :| 0 <= i < |lines| && IsRecordFor(lines[i], k);
      if i < |init| {
        assert init[i] == lines[i];
      }
    }
    if exists i :: 0 <= i < |init| && IsRecordFor(init[i], k) {
      var i :| 0 <= i < |init| && IsRecordFor(init[i], k);
      assert lines[i] == init[i];
    }
    assert lines[|init|] == line;
  }

  /** A later record for the same key overwrites an earlier one: the value
      loaded for a key is the second field of its last record. */
  lemma {:induction false} LoadLastRecordWins(lines: seq<string>, i: nat)
    requires i < |lines| && |Split(lines[i], '|')| == 2
    requires forall j :: i < j < |lines| ==> !IsRecordFor(lines[j], Split(lines[i], '|')[0])
    ensures Lookup(LoadLines(lines), Split(lines[i], '|')[0]) == Some(Split(lines[i], '|')[1])
  {
    var init, line := lines[..|lines| - 1], lines[|lines| - 1];
    var k := Split(lines[i], '|')[0];
    var parts := Split(line, '|');
    if i == |lines| - 1 {
      AssignLookup(LoadLines(init), parts[0], parts[1], k);
    } else {
      assert init[i] == lines[i];
      LoadLastRecordWins(init, i);
      if |parts| == 2 {
        AssignLookup(LoadLines(init), parts[0], parts[1], k);
      }
    }
  }

  /** The record line `path|hash` followed by `suffix` splits back into the
      path and the hash with the suffix still attached. */
  lemma RecordFields(e: Entry, suffix: string)
    requires '|' !in e.path && '|' !in e.hash && '|' !in suffix
    ensures Split(e.path + "|" + e.hash + suffix, '|') == [e.path, e.hash + suffix]
  {
    assert e.path + "|" + e.hash + suffix == e.path + ['|'] + (e.hash + suffix);
    SplitAround(e.path, '|', e.hash + suffix);
    SplitWithout(e.hash + suffix, '|');
  }

  /** Loading the record lines of a snapshot with distinct keys gives its
      entries back in order, each hash followed by whatever followed it on its
      line. */
  lemma {:induction false} LoadRecordLines(s: Snapshot, lines: seq<string>, suffix: string)
    requires DistinctKeys(s) && |lines| == |s| && '|' !in suffix
    requires forall i :: 0 <= i < |s| ==> '|' !in s[i].path && '|' !in s[i].hash
    requires forall i :: 0 <= i < |s| ==> lines[i] == s[i].path + "|" + s[i].hash + suffix
    ensures |LoadLines(lines)| == |s|
    ensures forall i :: 0 <= i < |s| ==> LoadLines(lines)[i] == Entry(s[i].path, s[i].hash + suffix)
  {
    if s != [] {
      var n := |s| - 1;
      LoadRecordLines(s[..n], lines[..n], suffix);
      var acc := LoadLines(lines[..n]);
      assert !HasKey(acc, s[n].path) by {
        forall j | 0 <= j < |acc| ensures Keys(acc)[j] != s[n].path {
          assert acc[j].path == s[j].path;
        }
      }
      RecordFields(s[n], suffix);
      var e := Entry(s[n].path, s[n].hash + suffix);
      assert LoadLines(lines) == LoadLine(acc, lines[n]) == acc + [e];
      forall i | 0 <= i < |s| ensures LoadLines(lines)[i] == Entry(s[i].path, s[i].hash + suffix) {
        if i < n {
          assert LoadLines(lines)[i] == acc[i];
        }
      }
    }
  }

  /** The round trip as written: for entries the format can hold, loading a
      saved snapshot gives its keys in order, each with its hash plus the
      newline that ended its line, which the loader never strips. */
  lemma LoadAfterSaveKeepsNewline(s: Snapshot)
    requires DistinctKeys(s)
    requires forall i :: 0 <= i < |s| ==> Storable(s[i])
    ensures var loaded := LoadPrevious(Some(Serialize(s)));
      |loaded| == |s| &&
      forall i :: 0 <= i < |s| ==> loaded[i] == Entry(s[i].path, s[i].hash + "\n")
  {
    SaveWritesOneLinePerEntry(s);
    LoadRecordLines(s, Records(s), "\n");
  }

  /** The round trip with the newline removed: loading a saved snapshot gives
      back exactly that snapshot. */
  lemma LoadFixedAfterSave(s: Snapshot)
    requires DistinctKeys(s)
    requires forall i :: 0 <= i < |s| ==> Storable(s[i])
    ensures LoadPreviousFixed(Some(Serialize(s))) == s
  {
    SaveWritesOneLinePerEntry(s);
    var stripped := Stripped(Records(s));
    StrippedRecords(s);
    LoadRecordLines(s, stripped, "");
    var loaded := LoadLines(stripped);
    forall i | 0 <= i < |s| ensures loaded[i] == s[i] {
      assert s[i].hash + "" == s[i].hash;
    }
  }

  /** With their newlines removed, the record lines are `path|hash`. */
  lemma StrippedRecords(s: Snapshot)
    ensures |Stripped(Records(s))| == |s|
    ensures forall i :: 0 <= i < |s| ==> Stripped(Records(s))[i] == s[i].path + "|" + s[i].hash + ""
  {
    forall i | 0 <= i < |s| ensures Stripped(Records(s))[i] == s[i].path + "|" + s[i].hash + "" {
      StripRecord(s[i]);
    }
  }

  /** Removing the newline from a record line leaves `path|hash`. */
  lemma StripRecord(e: Entry)
    ensures StripNewline(Record(e)) == e.path + "|" + e.hash + ""
  {
    assert Record(e) == (e.path + "|" + e.hash) + "\n";
    assert e.path + "|" + e.hash + "" == e.path + "|" + e.hash;
  }
}
