/**
  * The type registries: for each of the six categories (Service, ServiceImpl, Manager,
  * ManagerImpl, Dao, DaoImpl interfaces and classes) a set of lower-cased names and a
  * list of records, filled by one `while (matcher.find())` loop per source file; and the
  * Action class list, which keeps one record per Action source and is not deduplicated.
  */
module Registry {
  import opened Text
  import opened Seqs
  import opened Classify
  import opened FileNames

  /** A source file as the walks see it: its name, its path relative to the scanned root and its text. */
  datatype SourceFile = SourceFile(name: string, relativePath: string, content: string)

  datatype Category =
    | ServiceInterface | ServiceImpl | ManagerInterface | ManagerImpl | DaoInterface | DaoImpl

  /** The columns beyond name, package and path, per kind of row. */
  datatype Details =
    | InterfaceDetails
    | ActionDetails(parentClassName: string)
    | ServiceImplDetails(implementedInterfaces: string, hasServiceAnnotation: string,
                         hasSofaServiceAnnotation: string, bindingType: string)
    | ManagerImplDetails(implementedInterfaces: string, hasServiceAnnotation: string,
                         hasTransactionalAnnotation: string)
    | DaoImplDetails(implementedInterfaces: string, hasRepositoryAnnotation: string)

  /** One row of a category list or of the Action list. */
  datatype TypeRecord = TypeRecord(name: string, packageName: string, relativePath: string, details: Details)

  const NO_CLASS_NAME := "未提取到类名"
  const NO_PARENT := "无父类"

  function DefinitionPattern(c: Category): Pattern {
    match c
    case ServiceInterface => ServiceInterfaceDef
    case ServiceImpl => ServiceImplDef
    case ManagerInterface => ManagerInterfaceDef
    case ManagerImpl => ManagerImplDef
    case DaoInterface => DaoInterfaceDef
    case DaoImpl => DaoImplDef
  }

  /** The row a definition match would add: the trimmed name, the file's package and path,
      and the category's extra columns, all read from the whole file. */
  function CandidateRecord(c: Category, find: Finder, file: SourceFile, m: Find): (r: TypeRecord)
    ensures r.name == Trim(m.group) && r.relativePath == file.relativePath
    ensures r.packageName == ExtractPackageName(find, file.content)
  {
    var content := file.content;
    var details :=
      match c
      case ServiceImpl =>
        var (hasSofa, bindingType) := SofaColumns(ExtractSofaServiceInfo(find, content));
        ServiceImplDetails(ExtractImplementedInterfaces(m.tail), YesNo(HasMarker(find, ServiceAnnotation, content)),
                           hasSofa, bindingType)
      case ManagerImpl =>
        ManagerImplDetails(ExtractImplementedInterfaces(m.tail), YesNo(HasMarker(find, ServiceAnnotation, content)),
                           YesNo(HasMarker(find, TransactionalAnnotation, content)))
      case DaoImpl =>
        DaoImplDetails(ExtractImplementedInterfaces(m.tail), YesNo(HasMarker(find, RepositoryAnnotation, content)))
      case _ => InterfaceDetails;
    TypeRecord(Trim(m.group), ExtractPackageName(find, content), file.relativePath, details)
  }

  /** The candidate rows of some matches in a file, one per match, in match order. */
  function MatchRecords(c: Category, find: Finder, file: SourceFile, ms: seq<Find>): seq<TypeRecord>
  {
    if ms == [] then []
    else MatchRecords(c, find, file, ms[..|ms| - 1]) + [CandidateRecord(c, find, file, ms[|ms| - 1])]
  }

  /** The candidate rows of one file: one per definition match. */
  function Candidates(c: Category, find: Finder, file: SourceFile): seq<TypeRecord>
  {
    MatchRecords(c, find, file, find(DefinitionPattern(c), file.content))
  }

  /** The candidate rows of every Java source of a walk, file after file. */
  function FilesCandidates(c: Category, find: Finder, files: seq<SourceFile>): seq<TypeRecord>
  {
    if files == [] then []
    else
      var last := files[|files| - 1];
      FilesCandidates(c, find, files[..|files| - 1]) + (if IsJavaFile(last.name) then Candidates(c, find, last) else [])
  }

  lemma FilesCandidatesSnoc(c: Category, find: Finder, files: seq<SourceFile>, f: SourceFile)
    ensures FilesCandidates(c, find, files + [f]) ==
            FilesCandidates(c, find, files) + (if IsJavaFile(f.name) then Candidates(c, find, f) else [])
  {
    assert (files + [f])[..|files|] == files;
  }

  // ---------------------------------------------------------------------------
  // Deduplication by lower-cased name

  /** The key of the deduplication set. */
  function Canonical(r: TypeRecord): string {
    Lower(r.name)
  }

  function CanonicalNames(rows: seq<TypeRecord>): set<string> {
    set r | r in rows :: Canonical(r)
  }

  predicate DistinctCanonical(rows: seq<TypeRecord>) {
    forall i, j :: 0 <= i < j < |rows| ==> Canonical(rows[i]) != Canonical(rows[j])
  }

  /** No earlier record has the same lower-cased name. */
  predicate FirstOfName(recs: seq<TypeRecord>, i: int)
    requires 0 <= i < |recs|
  {
    forall j :: 0 <= j < i ==> Canonical(recs[j]) != Canonical(recs[i])
  }

  /** The rows the guarded `add` calls keep out of `recs`, starting from the set `seen`. */
  function Admit(seen: set<string>, recs: seq<TypeRecord>): seq<TypeRecord>
  {
    if recs == [] then []
    else
      var prev := Admit(seen, recs[..|recs| - 1]);
      var last := recs[|recs| - 1];
      if Canonical(last) in seen + CanonicalNames(prev) then prev else prev + [last]
  }

  lemma CanonicalNamesAppend(a: seq<TypeRecord>, b: seq<TypeRecord>)
    ensures CanonicalNames(a + b) == CanonicalNames(a) + CanonicalNames(b)
  {
    var s := a + b;
    forall k | k in CanonicalNames(s)
      ensures k in CanonicalNames(a) + CanonicalNames(b)
    {
      var r :| r in s && Canonical(r) == k;
    }
  }

  /** Nothing admitted was seen before, and the admitted names are pairwise distinct. */
  lemma {:induction false} AdmitDistinct(seen: set<string>, recs: seq<TypeRecord>)
    ensures forall r :: r in Admit(seen, recs) ==> Canonical(r) !in seen
    ensures DistinctCanonical(Admit(seen, recs))
  {
    if recs != [] {
      var prev := Admit(seen, recs[..|recs| - 1]);
      AdmitDistinct(seen, recs[..|recs| - 1]);
      var last := recs[|recs| - 1];
      if Canonical(last) !in seen + CanonicalNames(prev) {
        assert forall i :: 0 <= i < |prev| ==> Canonical(prev[i]) in CanonicalNames(prev);
      }
    }
  }

  /** Every new lower-cased name is registered: the set grows by exactly the unseen names. */
  lemma {:induction false} AdmitNames(seen: set<string>, recs: seq<TypeRecord>)
    ensures CanonicalNames(Admit(seen, recs)) == CanonicalNames(recs) - seen
  {
    if recs != [] {
      var init, last := recs[..|recs| - 1], recs[|recs| - 1];
      AdmitNames(seen, init);
      assert recs == init + [last];
      CanonicalNamesAppend(init, [last]);
      CanonicalNamesAppend(Admit(seen, init), [last]);
    }
  }

  /** Every admitted row is the first record of its lower-cased name in the input. */
  lemma {:induction false} AdmitOnlyFirst(seen: set<string>, recs: seq<TypeRecord>)
    ensures forall r :: r in Admit(seen, recs) ==>
              exists i :: 0 <= i < |recs| && recs[i] == r && FirstOfName(recs, i)
  {
    if recs != [] {
      var init, last := recs[..|recs| - 1], recs[|recs| - 1];
      assert recs == init + [last];
      AdmitSnoc(seen, init, last);
      var prev := Admit(seen, init);
      AdmitOnlyFirst(seen, init);
      AdmitNames(seen, init);
      forall r | r in Admit(seen, recs)
        ensures exists i :: 0 <= i < |recs| && recs[i] == r && FirstOfName(recs, i)
      {
        if r in prev {
          var i :| 0 <= i < |init| && init[i] == r && FirstOfName(init, i);
          assert recs[i] == r && FirstOfName(recs, i);
        } else {
          assert r == last && Canonical(last) !in CanonicalNames(init);
          forall j | 0 <= j < |init|
            ensures Canonical(recs[j]) != Canonical(last)
          {
            assert Canonical(init[j]) in CanonicalNames(init);
          }
          assert FirstOfName(recs, |init|);
        }
      }
    }
  }

  /** The first record of every unseen lower-cased name is admitted. */
  lemma {:induction false} AdmitEveryFirst(seen: set<string>, recs: seq<TypeRecord>)
    ensures forall i :: 0 <= i < |recs| && FirstOfName(recs, i) && Canonical(recs[i]) !in seen ==>
              recs[i] in Admit(seen, recs)
  {
    if recs != [] {
      var init, last := recs[..|recs| - 1], recs[|recs| - 1];
      assert recs == init + [last];
      AdmitSnoc(seen, init, last);
      AdmitEveryFirst(seen, init);
      AdmitNames(seen, init);
      forall i | 0 <= i < |recs| && FirstOfName(recs, i) && Canonical(recs[i]) !in seen
        ensures recs[i] in Admit(seen, recs)
      {
        if i < |init| {
          assert init[i] == recs[i] && FirstOfName(init, i);
        } else {
          forall r | r in init
            ensures Canonical(r) != Canonical(last)
          {
            var j :| 0 <= j < |init| && init[j] == r;
            assert recs[j] == r;
          }
        }
      }
    }
  }

  /** Admitting two batches in turn is admitting their concatenation. */
  lemma {:induction false} AdmitAppend(seen: set<string>, a: seq<TypeRecord>, b: seq<TypeRecord>)
    ensures Admit(seen, a + b) == Admit(seen, a) + Admit(seen + CanonicalNames(Admit(seen, a)), b)
  {
    var seen' := seen + CanonicalNames(Admit(seen, a));
    if b == [] {
      assert a + b == a;
    } else {
      var init, last := b[..|b| - 1], b[|b| - 1];
      AdmitAppend(seen, a, init);
      assert b == init + [last];
      AppendAssoc(a, init, [last]);
      AdmitSnoc(seen, a + init, last);
      AdmitSnoc(seen', init, last);
      CanonicalNamesAppend(Admit(seen, a), Admit(seen', init));
      AppendAssoc(Admit(seen, a), Admit(seen', init), [last]);
    }
  }

  /** One more record: the definition of Admit, unfolded once. */
  lemma AdmitSnoc(seen: set<string>, recs: seq<TypeRecord>, x: TypeRecord)
    ensures Admit(seen, recs + [x]) ==
            if Canonical(x) in seen + CanonicalNames(Admit(seen, recs)) then Admit(seen, recs) else Admit(seen, recs) + [x]
  {
    assert (recs + [x])[..|recs|] == recs;
  }

  /** Appending a row with a new lower-cased name keeps the names distinct and adds that name. */
  lemma DistinctSnoc(rows: seq<TypeRecord>, x: TypeRecord)
    requires DistinctCanonical(rows) && Canonical(x) !in CanonicalNames(rows)
    ensures DistinctCanonical(rows + [x])
    ensures CanonicalNames(rows + [x]) == CanonicalNames(rows) + {Canonical(x)}
  {
    assert forall j :: 0 <= j < |rows| ==> Canonical(rows[j]) in CanonicalNames(rows);
    CanonicalNamesAppend(rows, [x]);
  }

  /** Two spellings of one name in a row: only the first is kept, as written. */
  lemma CaseVariantsKeepFirst(a: TypeRecord, b: TypeRecord)
    requires Canonical(a) == Canonical(b)
    ensures Admit({}, [a, b]) == [a]
  {
    assert [a, b] == [a] + [b];
    AdmitSnoc({}, [a], b);
    assert [a] == [] + [a];
    AdmitSnoc({}, [], a);
    assert Canonical(a) in CanonicalNames([a]);
  }

  /** "UserService" and "USERSERVICE" are one name for the registries. */
  lemma UserServiceCaseVariants()
    ensures Lower("UserService") == Lower("USERSERVICE")
  {
  }

  // ---------------------------------------------------------------------------
  // One category: its set and its list

  class CategoryRegistry {
    const category: Category
    /** The lower-cased names registered so far. */
    var seen: set<string>
    var rows: seq<TypeRecord>

    /** The set is the set of lower-cased row names, and no two rows share one. */
    ghost predicate Valid()
      reads this
    {
      seen == CanonicalNames(rows) && DistinctCanonical(rows)
    }

    constructor(category: Category)
      ensures this.category == category && seen == {} && rows == []
      ensures Valid()
    {
      this.category := category;
      seen := {};
      rows := [];
    }

    /** The guarded registration of one row: added, with its lower-cased name, only when that name is new. */
    method Register(record: TypeRecord)
      requires Valid()
      modifies this
      ensures Valid()
      ensures rows == old(rows) + (if Canonical(record) in old(seen) then [] else [record])
      ensures seen == old(seen) + {Canonical(record)}
    {
      var key := Lower(record.name);
      if key !in seen {
        DistinctSnoc(rows, record);
        seen := seen + {key};
        rows := rows + [record];
      }
    }

    /** parse*File: registers every definition match of the file whose lower-cased name is new. */
    method ParseFile(find: Finder, file: SourceFile)
      requires Valid()
      modifies this
      ensures Valid()
      ensures rows == old(rows) + Admit(old(seen), Candidates(category, find, file))
      ensures seen == old(seen) + CanonicalNames(Candidates(category, find, file))
    {
      var matches := find(DefinitionPattern(category), file.content);
      ghost var rows0, seen0 := rows, seen;
      var i := 0;
      while i < |matches|
        invariant 0 <= i <= |matches|
        invariant Valid()
        invariant rows == rows0 + Admit(seen0, MatchRecords(category, find, file, matches[..i]))
      {
        var record := CandidateRecord(category, find, file, matches[i]);
        ghost var before := MatchRecords(category, find, file, matches[..i]);
        TakeSnoc(matches, i);
        assert matches[..i + 1][..i] == matches[..i];
        assert MatchRecords(category, find, file, matches[..i + 1]) == before + [record];
        AdmitSnoc(seen0, before, record);
        CanonicalNamesAppend(rows0, Admit(seen0, before));
        Register(record);
        AppendAssoc(rows0, Admit(seen0, before), [record]);
        i := i + 1;
      }
      assert matches[..i] == matches;
      CanonicalNamesAppend(rows0, Admit(seen0, Candidates(category, find, file)));
      AdmitNames(seen0, Candidates(category, find, file));
    }

    /** scanAll*: the Java sources of a walk, in walk order; the first file defining a name wins. */
    method ScanFiles(find: Finder, files: seq<SourceFile>)
      requires Valid()
      modifies this
      ensures Valid()
      ensures rows == old(rows) + Admit(old(seen), FilesCandidates(category, find, files))
    {
      ghost var rows0, seen0 := rows, seen;
      var i := 0;
      while i < |files|
        invariant 0 <= i <= |files|
        invariant Valid()
        invariant rows == rows0 + Admit(seen0, FilesCandidates(category, find, files[..i]))
      {
        ghost var before := FilesCandidates(category, find, files[..i]);
        TakeSnoc(files, i);
        FilesCandidatesSnoc(category, find, files[..i], files[i]);
        if IsJavaFile(files[i].name) {
          ghost var now := Candidates(category, find, files[i]);
          ghost var seenI := seen0 + CanonicalNames(Admit(seen0, before));
          CanonicalNamesAppend(rows0, Admit(seen0, before));
          ParseFile(find, files[i]);
          AdmitAppend(seen0, before, now);
          AppendAssoc(rows0, Admit(seen0, before), Admit(seenI, now));
        } else {
          AppendEmpty(before);
        }
        i := i + 1;
      }
      assert files[..i] == files;
    }
  }

  // ---------------------------------------------------------------------------
  // The Action class list

  /** parseActionJavaFile: class name, package and parent class, with their defaults. */
  function ActionRecord(find: Finder, file: SourceFile): (r: TypeRecord)
    ensures r.name != "" && r.details.ActionDetails? && r.details.parentClassName != ""
    ensures r.relativePath == file.relativePath
  {
    var className := ExtractClassName(find, file.content);
    var name := if className.None? || className.value == "" then NO_CLASS_NAME else className.value;
    var parent := ExtractParentClassName(find, file.content);
    TypeRecord(name, ExtractPackageName(find, file.content), file.relativePath,
               ActionDetails(if parent == "" then NO_PARENT else parent))
  }

  /** The extracted values are kept when present; the defaults stand in for missing ones. */
  lemma ActionRecordDefaults(find: Finder, file: SourceFile)
    ensures var r := ActionRecord(find, file);
            var className := ExtractClassName(find, file.content);
            var parent := ExtractParentClassName(find, file.content);
            (className.None? || className.value == "" ==> r.name == NO_CLASS_NAME) &&
            (className.Some? && className.value != "" ==> r.name == className.value) &&
            (parent == "" ==> r.details.parentClassName == NO_PARENT) &&
            (parent != "" ==> r.details.parentClassName == parent) &&
            r.packageName == ExtractPackageName(find, file.content)
  {
  }

  /** The parent column of an Action row: the trimmed `extends` group of the first class
      definition when there is one and it does not trim to "", "无父类" otherwise. */
  lemma ActionParentColumn(find: Finder, file: SourceFile)
    ensures var r := ActionRecord(find, file);
            var m := find(ClassDef, file.content);
            if m != [] && m[0].tail.Some? && Trim(m[0].tail.value) != "" then
              r.details.parentClassName == Trim(m[0].tail.value)
            else r.details.parentClassName == NO_PARENT
  {
  }

  /** The Action rows of a walk: one per Action source, in walk order. */
  function ActionRecords(find: Finder, files: seq<SourceFile>): seq<TypeRecord>
  {
    if files == [] then []
    else
      var last := files[|files| - 1];
      ActionRecords(find, files[..|files| - 1]) + (if IsActionFile(last.name) then [ActionRecord(find, last)] else [])
  }

  /** The Action sources of a walk, in walk order. */
  function ActionFiles(files: seq<SourceFile>): (actionFiles: seq<SourceFile>)
  {
    if files == [] then []
    else
      var last := files[|files| - 1];
      ActionFiles(files[..|files| - 1]) + (if IsActionFile(last.name) then [last] else [])
  }

  /** The walk one file further: that file's row, when it is an Action source. */
  lemma ActionRecordsSnoc(find: Finder, files: seq<SourceFile>, i: int)
    requires 0 <= i < |files|
    ensures ActionRecords(find, files[..i + 1]) ==
              ActionRecords(find, files[..i]) + (if IsActionFile(files[i].name) then [ActionRecord(find, files[i])] else [])
  {
    assert files[..i + 1][..i] == files[..i];
  }

  /** Exactly the Action sources are kept, each as often as it occurs. */
  lemma {:induction false} ActionFilesFilter(files: seq<SourceFile>)
    ensures forall f: SourceFile :: f in ActionFiles(files) <==> f in files && IsActionFile(f.name)
    ensures forall f: SourceFile :: IsActionFile(f.name) ==> multiset(ActionFiles(files))[f] == multiset(files)[f]
  {
    if files != [] {
      var init := files[..|files| - 1];
      ActionFilesFilter(init);
      assert files == init + [files[|files| - 1]];
    }
  }

  /** One row per Action source, in order: nothing is merged or dropped. */
  lemma {:induction false} ActionRecordsPerFile(find: Finder, files: seq<SourceFile>)
    ensures |ActionRecords(find, files)| == |ActionFiles(files)|
    ensures forall k :: 0 <= k < |ActionFiles(files)| ==> ActionRecords(find, files)[k] == ActionRecord(find, ActionFiles(files)[k])
  {
    if files != [] {
      var init, last := files[..|files| - 1], files[|files| - 1];
      ActionRecordsPerFile(find, init);
      var rs, fs := ActionRecords(find, init), ActionFiles(init);
      if IsActionFile(last.name) {
        assert ActionRecords(find, files) == rs + [ActionRecord(find, last)];
        assert ActionFiles(files) == fs + [last];
      } else {
        assert ActionRecords(find, files) == rs + [];
        assert ActionFiles(files) == fs + [];
      }
    }
  }

  lemma ActionRecordsSingle(find: Finder, file: SourceFile)
    ensures ActionRecords(find, [file]) == if IsActionFile(file.name) then [ActionRecord(find, file)] else []
  {
    assert [file][..0] == [];
  }

  /** The same Action source seen twice gives two rows: the list is not deduplicated. */
  lemma ActionListKeepsRepeats(find: Finder, file: SourceFile)
    requires IsActionFile(file.name)
    ensures ActionRecords(find, [file, file]) == [ActionRecord(find, file), ActionRecord(find, file)]
  {
    assert [file, file][..1] == [file];
    ActionRecordsSingle(find, file);
  }

  class ActionClassList {
    var rows: seq<TypeRecord>

    constructor()
      ensures rows == []
    {
      rows := [];
    }

    /** addActionClassRow after parseActionJavaFile: one more row, always. */
    method ParseActionJavaFile(find: Finder, file: SourceFile)
      modifies this
      ensures rows == old(rows) + [ActionRecord(find, file)]
    {
      var className := ExtractClassName(find, file.content);
      var name := if className.None? || className.value == "" then NO_CLASS_NAME else className.value;
      var packageName := ExtractPackageName(find, file.content);
      var parent := ExtractParentClassName(find, file.content);
      if parent == "" {
        parent := NO_PARENT;
      }
      rows := rows + [TypeRecord(name, packageName, file.relativePath, ActionDetails(parent))];
    }

    /** scanAllActionJavaFiles: the Action sources of a walk, in walk order. */
    method ScanFiles(find: Finder, files: seq<SourceFile>)
      modifies this
      ensures rows == old(rows) + ActionRecords(find, files)
    {
      ghost var rows0 := rows;
      var i := 0;
      while i < |files|
        invariant 0 <= i <= |files|
        invariant rows == rows0 + ActionRecords(find, files[..i])
      {
        ActionRecordsSnoc(find, files, i);
        if IsActionFile(files[i].name) {
          ParseActionJavaFile(find, files[i]);
          AppendAssoc(rows0, ActionRecords(find, files[..i]), [ActionRecord(find, files[i])]);
        } else {
          AppendEmpty(ActionRecords(find, files[..i]));
        }
        i := i + 1;
      }
      assert files[..i] == files;
    }
  }

  /** A ServiceImpl row's two SofaService columns come from one extraction and agree with each other. */
  lemma ServiceImplSofaColumns(find: Finder, file: SourceFile, m: Find)
    ensures var d := CandidateRecord(ServiceImpl, find, file, m).details;
            var markers := find(SofaServiceAnnotation, file.content);
            d.ServiceImplDetails? &&
            (markers == [] ==> d.hasSofaServiceAnnotation == NO && d.bindingType == "无") &&
            (markers != [] ==>
               d.hasSofaServiceAnnotation == YES &&
               d.bindingType == (if find(BindingTypeAttr, markers[0].group) == [] then UNSPECIFIED
                                 else Trim(find(BindingTypeAttr, markers[0].group)[0].group)))
  {
    SofaMarkerCorrelated(find, file.content);
  }

  /** Where the as-written `split("\\|")[1]` neither aborts nor truncates -- no marker, no bindingType,
      or a binding type that is not blank and holds no '|' -- it gives the row's two columns. */
  lemma ServiceImplSofaAsWritten(find: Finder, file: SourceFile, m: Find)
    requires var markers := find(SofaServiceAnnotation, file.content);
             markers == [] || find(BindingTypeAttr, markers[0].group) == [] ||
             (var t := Trim(find(BindingTypeAttr, markers[0].group)[0].group); t != [] && '|' !in t)
    ensures var d := CandidateRecord(ServiceImpl, find, file, m).details;
            d.ServiceImplDetails? &&
            SofaColumnsAsWritten(ExtractSofaServiceInfo(find, file.content)) ==
              Some((d.hasSofaServiceAnnotation, d.bindingType))
  {
    match SofaBindingType(find, file.content)
    case None => SofaDecodingsAgree(UNSPECIFIED);
    case Some(t) => SofaDecodingsAgree(t);
  }
}
