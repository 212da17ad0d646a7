/**
  * The front-end path records: the `.do` paths referenced by each JSP, HTML or JS file,
  * one record per distinct path per file (extractDoPathFromFile), and the second pass
  * that rewrites each record's count from a temporary map keyed by file and path
  * (countDoPathInFile).
  */
module FrontEnd {
  import opened Text
  import opened Seqs
  import opened Counting
  import opened Classify

  datatype DoPathRecord = DoPathRecord(fileRelativePath: string, doPath: string, count: string)

  const INITIAL_COUNT := "1"

  /** The distinct non-empty trimmed paths (group 2) of some DO_PATH_PATTERN matches. */
  function DoPathSet(matches: seq<Find>): set<string>
  {
    if matches == [] then {}
    else
      var path := Trim(matches[|matches| - 1].group);
      DoPathSet(matches[..|matches| - 1]) + (if path == "" then {} else {path})
  }

  /** A path is collected exactly when some match trims to it and it is not empty. */
  lemma {:induction false} DoPathSetMembers(matches: seq<Find>, p: string)
    ensures p in DoPathSet(matches) <==> p != "" && exists i :: 0 <= i < |matches| && Trim(matches[i].group) == p
  {
    if p in DoPathSet(matches) {
      var i := DoPathSetWitness(matches, p);
    }
    if p != "" && exists i :: 0 <= i < |matches| && Trim(matches[i].group) == p {
      var i :| 0 <= i < |matches| && Trim(matches[i].group) == p;
      DoPathSetHas(matches, i);
    }
  }

  /** Every non-empty trimmed match is collected. */
  lemma {:induction false} DoPathSetHas(matches: seq<Find>, i: int)
    requires 0 <= i < |matches| && Trim(matches[i].group) != ""
    ensures Trim(matches[i].group) in DoPathSet(matches)
  {
    var init := matches[..|matches| - 1];
    if i < |init| {
      assert init[i] == matches[i];
      DoPathSetHas(init, i);
    }
  }

  /** Every collected path comes from a match. */
  lemma {:induction false} DoPathSetWitness(matches: seq<Find>, p: string) returns (i: int)
    requires p in DoPathSet(matches)
    ensures p != "" && 0 <= i < |matches| && Trim(matches[i].group) == p
  {
    var init := matches[..|matches| - 1];
    if p in DoPathSet(init) {
      i := DoPathSetWitness(init, p);
      assert init[i] == matches[i];
    } else {
      i := |matches| - 1;
    }
  }

  /** The records one file contributes, in the order its paths are enumerated. */
  function PathRecords(relativePath: string, paths: seq<string>): seq<DoPathRecord>
  {
    if paths == [] then []
    else PathRecords(relativePath, paths[..|paths| - 1]) + [DoPathRecord(relativePath, paths[|paths| - 1], INITIAL_COUNT)]
  }

  /** The records of one file carry the file's path, the enumerated path and the count "1". */
  lemma {:induction false} PathRecordsAt(relativePath: string, paths: seq<string>)
    ensures |PathRecords(relativePath, paths)| == |paths|
    ensures forall k :: 0 <= k < |paths| ==> PathRecords(relativePath, paths)[k] == DoPathRecord(relativePath, paths[k], INITIAL_COUNT)
  {
    if paths != [] {
      PathRecordsAt(relativePath, paths[..|paths| - 1]);
    }
  }

  /** `order` lists the elements of `s`, each once. */
  ghost predicate Enumerates(order: seq<string>, s: set<string>) {
    (forall x :: x in order <==> x in s) &&
    (forall i, j :: 0 <= i < j < |order| ==> order[i] != order[j])
  }

  /** An enumeration has as many entries as the set has elements. */
  lemma {:induction false} EnumerationSize(order: seq<string>, s: set<string>)
    requires Enumerates(order, s)
    ensures |order| == |s|
  {
    if order != [] {
      var last := order[|order| - 1];
      var init := order[..|order| - 1];
      assert forall x :: x in init ==> x != last;
      assert Enumerates(init, s - {last});
      EnumerationSize(init, s - {last});
    }
  }

  // ---------------------------------------------------------------------------
  // countDoPathInFile as a function of the list

  /** `record.get("fileRelativePath") + "_" + record.get("doPath")` */
  function RecordKey(r: DoPathRecord): string {
    r.fileRelativePath + "_" + r.doPath
  }

  function RecordKeys(records: seq<DoPathRecord>): seq<string>
  {
    seq(|records|, i requires 0 <= i < |records| => RecordKey(records[i]))
  }

  /** The number of records with a given key. */
  function KeyCount(records: seq<DoPathRecord>, key: string): nat
  {
    multiset(RecordKeys(records))[key]
  }

  /** The list with every count rewritten to the number of records sharing the record's key. */
  function Recounted(records: seq<DoPathRecord>): seq<DoPathRecord>
  {
    seq(|records|, i requires 0 <= i < |records| => records[i].(count := Decimal(KeyCount(records, RecordKey(records[i])))))
  }

  /** Recounting keeps the length, the order and every other field, and writes the multiplicity of the key. */
  lemma RecountedShape(records: seq<DoPathRecord>, i: int)
    requires 0 <= i < |records|
    ensures |Recounted(records)| == |records|
    ensures Recounted(records)[i].fileRelativePath == records[i].fileRelativePath
    ensures Recounted(records)[i].doPath == records[i].doPath
    ensures Recounted(records)[i].count == Decimal(KeyCount(records, RecordKey(records[i])))
    ensures KeyCount(records, RecordKey(records[i])) >= 1
  {
    assert RecordKeys(records)[i] == RecordKey(records[i]);
  }

  /** A key occurring at one index only occurs once. */
  lemma UniqueKeyCount(keys: seq<string>, i: int)
    requires 0 <= i < |keys|
    requires forall j :: 0 <= j < |keys| && j != i ==> keys[j] != keys[i]
    ensures multiset(keys)[keys[i]] == 1
  {
    assert keys == keys[..i] + [keys[i]] + keys[i + 1..];
    assert forall j :: 0 <= j < i ==> keys[..i][j] == keys[j];
    assert forall j :: i + 1 <= j < |keys| ==> keys[i + 1..][j - i - 1] == keys[j];
    assert keys[i] !in keys[..i] && keys[i] !in keys[i + 1..];
  }

  /** When no two records share a key, every count is "1". */
  lemma DistinctKeysCountOne(records: seq<DoPathRecord>)
    requires forall i, j :: 0 <= i < j < |records| ==> RecordKey(records[i]) != RecordKey(records[j])
    ensures forall i :: 0 <= i < |records| ==> Recounted(records)[i].count == INITIAL_COUNT
  {
    var keys := RecordKeys(records);
    forall i | 0 <= i < |records|
      ensures Recounted(records)[i].count == INITIAL_COUNT
    {
      assert forall j :: 0 <= j < |keys| ==> keys[j] == RecordKey(records[j]);
      UniqueKeyCount(keys, i);
      assert Recounted(records)[i].count == Decimal(1);
    }
  }

  /** Keys of files without '_' in their path tell the (file, path) pairs apart. */
  lemma RecordKeyInjective(a: DoPathRecord, b: DoPathRecord)
    requires '_' !in a.fileRelativePath && '_' !in b.fileRelativePath
    ensures RecordKey(a) == RecordKey(b) <==> a.fileRelativePath == b.fileRelativePath && a.doPath == b.doPath
  {
    if RecordKey(a) == RecordKey(b) {
      var ka, kb := RecordKey(a), RecordKey(b);
      assert ka == a.fileRelativePath + ['_'] + a.doPath;
      assert kb == b.fileRelativePath + ['_'] + b.doPath;
      SplitFirst(a.fileRelativePath, a.doPath, ka);
      SplitFirst(b.fileRelativePath, b.doPath, kb);
    }
  }

  /** The text before the first '_' of `f + "_" + p`, when `f` has none, is `f`. */
  lemma SplitFirst(f: string, p: string, k: string)
    requires '_' !in f && k == f + ['_'] + p
    ensures IndexOf(k, '_') == |f| && k[..|f|] == f && k[|f| + 1..] == p
  {
    assert k[|f|] == '_';
    assert forall j :: 0 <= j < |f| ==> k[j] == f[j];
  }

  /** A directory named like "x.jsp_" makes two different (file, path) pairs share a key. */
  lemma KeyCollisionAcrossFiles()
    ensures RecordKey(DoPathRecord("x.jsp", "/y.jsp_/c.do", INITIAL_COUNT)) ==
            RecordKey(DoPathRecord("x.jsp_/y.jsp", "/c.do", INITIAL_COUNT))
  {
    assert "x.jsp" + "_" + "/y.jsp_/c.do" == "x.jsp_/y.jsp" + "_" + "/c.do";
  }

  // ---------------------------------------------------------------------------
  // The list itself

  /** The first pass of extractDoPathFromFile: the trimmed, non-empty .do paths of the matches, as a set. */
  method CollectDoPaths(matches: seq<Find>) returns (doPathSet: set<string>)
    ensures doPathSet == DoPathSet(matches)
  {
    doPathSet := {};
    var i := 0;
    while i < |matches|
      invariant 0 <= i <= |matches|
      invariant doPathSet == DoPathSet(matches[..i])
    {
      var doPath := Trim(matches[i].group);
      TakeSnoc(matches, i);
      DoPathSetSnoc(matches[..i], matches[i]);
      if doPath != "" {
        doPathSet := doPathSet + {doPath};
      }
      i := i + 1;
    }
    assert matches[..i] == matches;
  }

  class DoPathIndex {
    var records: seq<DoPathRecord>

    constructor()
      ensures records == []
    {
      records := [];
    }

    /** extractDoPathFromFile: one record with count "1" per distinct non-empty path of the file,
        appended in the (unspecified) iteration order of the path set. */
    method ExtractDoPathFromFile(find: Finder, relativePath: string, content: string) returns (ghost order: seq<string>)
      modifies this
      ensures Enumerates(order, DoPathSet(find(DoPath, content)))
      ensures records == old(records) + PathRecords(relativePath, order)
    {
      var doPathSet := CollectDoPaths(find(DoPath, content));
      ghost var records0 := records;
      order := [];
      var remaining := doPathSet;
      while remaining != {}
        invariant remaining <= doPathSet
        invariant forall x :: x in order <==> x in doPathSet && x !in remaining
        invariant forall a, b :: 0 <= a < b < |order| ==> order[a] != order[b]
        invariant records == records0 + PathRecords(relativePath, order)
        decreases |remaining|
      {
        var doPath :| doPath in remaining;
        PathRecordsSnoc(relativePath, order, doPath);
        AppendAssoc(records0, PathRecords(relativePath, order), [DoPathRecord(relativePath, doPath, INITIAL_COUNT)]);
        records := records + [DoPathRecord(relativePath, doPath, INITIAL_COUNT)];
        order := order + [doPath];
        remaining := remaining - {doPath};
      }
    }

    /** countDoPathInFile: a first pass counts the keys, a second writes each record's count. */
    method CountDoPathInFile()
      modifies this
      ensures records == Recounted(old(records))
    {
      var tempCountMap := CountKeys(records);
      records := RewriteCounts(records, tempCountMap);
    }
  }

  /** The first loop of countDoPathInFile: one `getOrDefault(key, 0) + 1` per record. */
  method CountKeys(records: seq<DoPathRecord>) returns (tempCountMap: map<string, nat>)
    ensures tempCountMap == Tally(RecordKeys(records))
  {
    ghost var keys := RecordKeys(records);
    tempCountMap := map[];
    var i := 0;
    while i < |records|
      invariant 0 <= i <= |records|
      invariant tempCountMap == Tally(keys[..i])
    {
      var key := records[i].fileRelativePath + "_" + records[i].doPath;
      assert keys[i] == key;
      TakeSnoc(keys, i);
      TallyAppend(keys[..i], key);
      tempCountMap := Increment(tempCountMap, key);
      i := i + 1;
    }
    assert keys[..i] == keys;
  }

  /** The second loop of countDoPathInFile: every record's count becomes its key's value in the map. */
  method RewriteCounts(records: seq<DoPathRecord>, tempCountMap: map<string, nat>) returns (updated: seq<DoPathRecord>)
    requires tempCountMap == Tally(RecordKeys(records))
    ensures updated == Recounted(records)
  {
    ghost var recounted := Recounted(records);
    updated := records;
    var i := 0;
    while i < |updated|
      invariant 0 <= i <= |updated| && |updated| == |records|
      invariant forall j :: 0 <= j < i ==> updated[j] == recounted[j]
      invariant forall j :: i <= j < |updated| ==> updated[j] == records[j]
    {
      var key := updated[i].fileRelativePath + "_" + updated[i].doPath;
      CountOfKey(records, i);
      updated := updated[i := updated[i].(count := Decimal(tempCountMap[key]))];
      i := i + 1;
    }
    assert updated == recounted;
  }

  /** The temporary map holds, for each record's key, the number of records with that key. */
  lemma CountOfKey(records: seq<DoPathRecord>, i: int)
    requires 0 <= i < |records|
    ensures RecordKey(records[i]) in Tally(RecordKeys(records))
    ensures Tally(RecordKeys(records))[RecordKey(records[i])] == KeyCount(records, RecordKey(records[i]))
  {
    TallyCounts(RecordKeys(records));
    assert RecordKeys(records)[i] == RecordKey(records[i]);
  }

  lemma DoPathSetSnoc(matches: seq<Find>, m: Find)
    ensures DoPathSet(matches + [m]) == DoPathSet(matches) + (if Trim(m.group) == "" then {} else {Trim(m.group)})
  {
    assert (matches + [m])[..|matches|] == matches;
  }

  lemma PathRecordsSnoc(relativePath: string, paths: seq<string>, p: string)
    ensures PathRecords(relativePath, paths + [p]) == PathRecords(relativePath, paths) + [DoPathRecord(relativePath, p, INITIAL_COUNT)]
  {
    assert (paths + [p])[..|paths|] == paths;
  }

  /** A single file's records have pairwise different keys, so recounting them keeps every count at "1". */
  lemma OneFileCountsStayOne(relativePath: string, order: seq<string>)
    requires forall a, b :: 0 <= a < b < |order| ==> order[a] != order[b]
    ensures |Recounted(PathRecords(relativePath, order))| == |order|
    ensures forall i :: 0 <= i < |order| ==> Recounted(PathRecords(relativePath, order))[i].count == INITIAL_COUNT
  {
    var records := PathRecords(relativePath, order);
    PathRecordsAt(relativePath, order);
    forall i, j | 0 <= i < j < |records|
      ensures RecordKey(records[i]) != RecordKey(records[j])
    {
      assert RecordKey(records[i])[|relativePath| + 1..] == order[i];
      assert RecordKey(records[j])[|relativePath| + 1..] == order[j];
    }
    DistinctKeysCountOne(records);
  }
}
