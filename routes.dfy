/**
  * Struts routing entries: one row per action forward (or one per action without
  * forwards), the duplicate key of each row, the run-wide count of rows per key,
  * and the second pass that writes each row's count and duplicate flag.
  *
  * The XML document is not read here: a configuration is given as its form-bean
  * elements and its action elements with their forward children, in document order.
  * An absent XML attribute is None.
  */
module Routes {
  import opened Text
  import opened Seqs
  import opened Counting
  import opened Classify

  /** What getDuplicateKey puts in place of a null component. */
  const NULL_PART := "空"
  /** DUPLICATE_KEY_SPLIT */
  const KEY_SEPARATOR := '_'

  datatype FormBean = FormBean(name: Option<string>, beanType: Option<string>)
  datatype Forward = Forward(name: Option<string>, path: Option<string>)
  datatype Action = Action(path: Option<string>, actionType: Option<string>, name: Option<string>, forwards: seq<Forward>)
  datatype StrutsConfig = StrutsConfig(formBeans: seq<FormBean>, actions: seq<Action>)

  /** One row of the routing sheet (the map built by addStrutsRow). */
  datatype RouteRow = RouteRow(
    relativePath: string,
    formBean: Option<string>,
    actionPath: Option<string>,
    actionType: Option<string>,
    actionName: Option<string>,
    forwardName: Option<string>,
    forwardPath: Option<string>,
    duplicateKey: string,
    isDuplicate: string,
    duplicateCount: string)

  // ---------------------------------------------------------------------------
  // getDuplicateKey

  /** A key component: null becomes "空", anything else is trimmed (so a blank one becomes ""). */
  function KeyPart(s: Option<string>): string {
    match s
    case None => NULL_PART
    case Some(v) => Trim(v)
  }

  /** getDuplicateKey: the three components joined with '_'. */
  function DuplicateKey(actionPath: Option<string>, formBeanType: Option<string>, forwardName: Option<string>): string
  {
    KeyPart(actionPath) + [KEY_SEPARATOR] + KeyPart(formBeanType) + [KEY_SEPARATOR] + KeyPart(forwardName)
  }

  /** When no component contains '_', the key splits back into exactly its three components. */
  lemma DuplicateKeySplits(actionPath: Option<string>, formBeanType: Option<string>, forwardName: Option<string>)
    requires KEY_SEPARATOR !in KeyPart(actionPath) && KEY_SEPARATOR !in KeyPart(formBeanType)
    requires KEY_SEPARATOR !in KeyPart(forwardName)
    ensures SplitAll(DuplicateKey(actionPath, formBeanType, forwardName), KEY_SEPARATOR) ==
            [KeyPart(actionPath), KeyPart(formBeanType), KeyPart(forwardName)]
  {
    SplitThree(KeyPart(actionPath), KeyPart(formBeanType), KeyPart(forwardName), KEY_SEPARATOR);
  }

  /** Hence two such keys are equal exactly when their trimmed components are. */
  lemma DuplicateKeyInjective(p1: Option<string>, t1: Option<string>, f1: Option<string>,
                              p2: Option<string>, t2: Option<string>, f2: Option<string>)
    requires KEY_SEPARATOR !in KeyPart(p1) && KEY_SEPARATOR !in KeyPart(t1) && KEY_SEPARATOR !in KeyPart(f1)
    requires KEY_SEPARATOR !in KeyPart(p2) && KEY_SEPARATOR !in KeyPart(t2) && KEY_SEPARATOR !in KeyPart(f2)
    ensures DuplicateKey(p1, t1, f1) == DuplicateKey(p2, t2, f2) <==>
            KeyPart(p1) == KeyPart(p2) && KeyPart(t1) == KeyPart(t2) && KeyPart(f1) == KeyPart(f2)
  {
    DuplicateKeySplits(p1, t1, f1);
    DuplicateKeySplits(p2, t2, f2);
  }

  /** Components containing '_' can collide: (a_b, c, f) and (a, b_c, f) share a key. */
  lemma DuplicateKeyAmbiguous(a: string, b: string, c: string, f: Option<string>)
    requires a != [] && IsTrimmed(a) && b != [] && IsTrimmed(b) && c != [] && IsTrimmed(c)
    ensures DuplicateKey(Some(a + [KEY_SEPARATOR] + b), Some(c), f) == DuplicateKey(Some(a), Some(b + [KEY_SEPARATOR] + c), f)
  {
    var ab, bc := a + [KEY_SEPARATOR] + b, b + [KEY_SEPARATOR] + c;
    assert ab[0] == a[0] && ab[|ab| - 1] == b[|b| - 1];
    assert bc[0] == b[0] && bc[|bc| - 1] == c[|c| - 1];
    TrimOfTrimmed(ab);
    TrimOfTrimmed(bc);
    TrimOfTrimmed(a);
    TrimOfTrimmed(c);
    Regroup(a, b, c, KEY_SEPARATOR);
  }

  /** A missing component and a blank one give different keys; a blank one and an empty one the same. */
  lemma NullAndBlankComponents(s: string)
    requires IsBlank(s)
    ensures KeyPart(None) != KeyPart(Some(s)) && KeyPart(Some(s)) == KeyPart(Some(""))
  {
  }

  // ---------------------------------------------------------------------------
  // parseSingleStrutsConfig as functions of the configuration

  /** The form-bean name → type map, filled in document order, so a later bean overwrites an earlier one. */
  function FormBeanMap(beans: seq<FormBean>): map<Option<string>, Option<string>>
  {
    if beans == [] then map[]
    else FormBeanMap(beans[..|beans| - 1])[beans[|beans| - 1].name := beans[|beans| - 1].beanType]
  }

  /** The index of the last bean bearing a name, or -1. */
  function LastBean(beans: seq<FormBean>, name: Option<string>): (i: int)
    ensures -1 <= i < |beans|
    ensures i >= 0 ==> beans[i].name == name
    ensures forall j :: i < j < |beans| ==> beans[j].name != name
  {
    if beans == [] then -1
    else if beans[|beans| - 1].name == name then |beans| - 1
    else LastBean(beans[..|beans| - 1], name)
  }

  /** The map holds exactly the names of the beans, each with the type of its last bean. */
  lemma {:induction false} FormBeanMapContents(beans: seq<FormBean>, name: Option<string>)
    ensures name in FormBeanMap(beans) <==> LastBean(beans, name) >= 0
    ensures name in FormBeanMap(beans) ==> FormBeanMap(beans)[name] == beans[LastBean(beans, name)].beanType
  {
    if beans != [] {
      var prior := beans[..|beans| - 1];
      FormBeanMapContents(prior, name);
      if beans[|beans| - 1].name != name {
        var i := LastBean(prior, name);
        assert i >= 0 ==> prior[i] == beans[i];
      }
    }
  }

  /** formBeanMap.getOrDefault(actionName, "") */
  function FormBeanType(formBeanMap: map<Option<string>, Option<string>>, actionName: Option<string>): Option<string>
  {
    if actionName in formBeanMap then formBeanMap[actionName] else Some("")
  }

  /** A fresh row as addStrutsRow builds it: both annotation columns empty. */
  function NewRow(relativePath: string, formBeanType: Option<string>, action: Action,
                  forwardName: Option<string>, forwardPath: Option<string>): RouteRow
  {
    RouteRow(relativePath, formBeanType, action.path, action.actionType, action.name,
             forwardName, forwardPath, DuplicateKey(action.path, formBeanType, forwardName), "", "")
  }

  /** One row per forward, in order. */
  function ForwardRows(relativePath: string, formBeanType: Option<string>, action: Action, forwards: seq<Forward>): (rows: seq<RouteRow>)
    ensures |rows| == |forwards|
  {
    if forwards == [] then []
    else
      var last := forwards[|forwards| - 1];
      ForwardRows(relativePath, formBeanType, action, forwards[..|forwards| - 1]) +
        [NewRow(relativePath, formBeanType, action, last.name, last.path)]
  }

  /** The rows one action element yields. */
  function ActionRows(relativePath: string, formBeanMap: map<Option<string>, Option<string>>, action: Action): seq<RouteRow>
  {
    var formBeanType := FormBeanType(formBeanMap, action.name);
    if action.forwards == [] then [NewRow(relativePath, formBeanType, action, Some(""), Some(""))]
    else ForwardRows(relativePath, formBeanType, action, action.forwards)
  }

  /** The rows of a list of action elements, in order. */
  function ActionsRows(relativePath: string, formBeanMap: map<Option<string>, Option<string>>, actions: seq<Action>): seq<RouteRow>
  {
    if actions == [] then []
    else ActionsRows(relativePath, formBeanMap, actions[..|actions| - 1]) + ActionRows(relativePath, formBeanMap, actions[|actions| - 1])
  }

  /** The i-th forward gives the i-th row. */
  lemma {:induction false} ForwardRowsAt(relativePath: string, formBeanType: Option<string>, action: Action, forwards: seq<Forward>)
    ensures forall i :: 0 <= i < |forwards| ==>
              ForwardRows(relativePath, formBeanType, action, forwards)[i] ==
              NewRow(relativePath, formBeanType, action, forwards[i].name, forwards[i].path)
  {
    if forwards != [] {
      var prior := forwards[..|forwards| - 1];
      ForwardRowsAt(relativePath, formBeanType, action, prior);
      var rows := ForwardRows(relativePath, formBeanType, action, prior);
      var last := forwards[|forwards| - 1];
      var all := rows + [NewRow(relativePath, formBeanType, action, last.name, last.path)];
      assert ForwardRows(relativePath, formBeanType, action, forwards) == all;
      forall i | 0 <= i < |forwards|
        ensures all[i] == NewRow(relativePath, formBeanType, action, forwards[i].name, forwards[i].path)
      {
        if i < |prior| {
          assert all[i] == rows[i] && prior[i] == forwards[i];
        }
      }
    }
  }

  lemma ForwardRowsPrefix(relativePath: string, formBeanType: Option<string>, action: Action, forwards: seq<Forward>, j: int)
    requires 0 <= j < |forwards|
    ensures ForwardRows(relativePath, formBeanType, action, forwards[..j + 1]) ==
            ForwardRows(relativePath, formBeanType, action, forwards[..j]) +
            [NewRow(relativePath, formBeanType, action, forwards[j].name, forwards[j].path)]
  {
    assert forwards[..j + 1][..j] == forwards[..j];
  }

  lemma ActionsRowsPrefix(relativePath: string, formBeanMap: map<Option<string>, Option<string>>, actions: seq<Action>, i: int)
    requires 0 <= i < |actions|
    ensures ActionsRows(relativePath, formBeanMap, actions[..i + 1]) ==
            ActionsRows(relativePath, formBeanMap, actions[..i]) + ActionRows(relativePath, formBeanMap, actions[i])
  {
    assert actions[..i + 1][..i] == actions[..i];
  }

  lemma FormBeanMapPrefix(beans: seq<FormBean>, i: int)
    requires 0 <= i < |beans|
    ensures FormBeanMap(beans[..i + 1]) == FormBeanMap(beans[..i])[beans[i].name := beans[i].beanType]
  {
    assert beans[..i + 1][..i] == beans[..i];
  }

  /** The form-bean loop of parseSingleStrutsConfig. */
  method CollectFormBeans(beans: seq<FormBean>) returns (formBeanMap: map<Option<string>, Option<string>>)
    ensures formBeanMap == FormBeanMap(beans)
  {
    formBeanMap := map[];
    for i := 0 to |beans|
      invariant formBeanMap == FormBeanMap(beans[..i])
    {
      FormBeanMapPrefix(beans, i);
      formBeanMap := formBeanMap[beans[i].name := beans[i].beanType];
    }
    assert beans[..|beans|] == beans;
  }

  /** The rows one configuration file yields. */
  function ConfigRows(relativePath: string, config: StrutsConfig): seq<RouteRow>
  {
    ActionsRows(relativePath, FormBeanMap(config.formBeans), config.actions)
  }

  /** An action without forwards yields one row whose forward columns are ""; one with N forwards yields
      N rows, the i-th for the i-th forward; every row carries the action's columns and form-bean type,
      and its key is built from them. */
  lemma ActionRowsShape(relativePath: string, formBeanMap: map<Option<string>, Option<string>>, action: Action)
    ensures var rows := ActionRows(relativePath, formBeanMap, action);
            var formBeanType := FormBeanType(formBeanMap, action.name);
            |rows| == (if action.forwards == [] then 1 else |action.forwards|) &&
            (forall i :: 0 <= i < |rows| ==>
               rows[i].relativePath == relativePath && rows[i].formBean == formBeanType &&
               rows[i].actionPath == action.path && rows[i].actionType == action.actionType &&
               rows[i].actionName == action.name &&
               rows[i].duplicateKey == DuplicateKey(action.path, formBeanType, rows[i].forwardName) &&
               rows[i].isDuplicate == "" && rows[i].duplicateCount == "") &&
            (action.forwards == [] ==> rows[0].forwardName == Some("") && rows[0].forwardPath == Some("")) &&
            (forall i :: 0 <= i < |action.forwards| ==>
               rows[i].forwardName == action.forwards[i].name && rows[i].forwardPath == action.forwards[i].path)
  {
    ForwardRowsAt(relativePath, FormBeanType(formBeanMap, action.name), action, action.forwards);
  }

  /** The form-bean type of an action is the type of the last form-bean bearing its name, or "" when none does. */
  lemma FormBeanTypeLastWins(beans: seq<FormBean>, actionName: Option<string>)
    ensures var i := LastBean(beans, actionName);
            FormBeanType(FormBeanMap(beans), actionName) == if i == -1 then Some("") else beans[i].beanType
  {
    FormBeanMapContents(beans, actionName);
  }

  // ---------------------------------------------------------------------------
  // duplicate counts

  /** The duplicate keys of a list of rows, in order. */
  function Keys(rows: seq<RouteRow>): seq<string>
  {
    seq(|rows|, i requires 0 <= i < |rows| => rows[i].duplicateKey)
  }

  /** The number of rows sharing a duplicate key. */
  function Multiplicity(rows: seq<RouteRow>, key: string): nat
  {
    multiset(Keys(rows))[key]
  }

  /** A row with its annotation columns written for a given count. */
  function Annotated(row: RouteRow, count: nat): (r: RouteRow)
    ensures r.isDuplicate == YES <==> count > 1
    ensures r.duplicateCount == Decimal(count)
    ensures r.(isDuplicate := row.isDuplicate, duplicateCount := row.duplicateCount) == row
  {
    row.(isDuplicate := if count > 1 then YES else NO, duplicateCount := Decimal(count))
  }

  /** What markDuplicateItems makes of a list of rows: each row annotated with the number of rows sharing its key. */
  function MarkedRows(rows: seq<RouteRow>): (marked: seq<RouteRow>)
    ensures |marked| == |rows|
    ensures forall i :: 0 <= i < |rows| ==> marked[i] == Annotated(rows[i], Multiplicity(rows, rows[i].duplicateKey))
  {
    seq(|rows|, i requires 0 <= i < |rows| => Annotated(rows[i], Multiplicity(rows, rows[i].duplicateKey)))
  }

  /** After marking, every row counts at least itself; its flag is "是" exactly when another row shares its key. */
  lemma MarkedRowsFlags(rows: seq<RouteRow>, i: int)
    requires 0 <= i < |rows|
    ensures Multiplicity(rows, rows[i].duplicateKey) >= 1
    ensures MarkedRows(rows)[i].isDuplicate == YES <==>
              exists j :: 0 <= j < |rows| && j != i && rows[j].duplicateKey == rows[i].duplicateKey
  {
    var keys := Keys(rows);
    KeySharedIff(keys, i);
    assert forall j :: 0 <= j < |rows| ==> keys[j] == rows[j].duplicateKey;
  }

  /** A key occurs more than once exactly when another index holds it. */
  lemma KeySharedIff(keys: seq<string>, i: int)
    requires 0 <= i < |keys|
    ensures multiset(keys)[keys[i]] >= 1
    ensures multiset(keys)[keys[i]] > 1 <==> exists j :: 0 <= j < |keys| && j != i && keys[j] == keys[i]
  {
    assert keys == keys[..i] + [keys[i]] + keys[i + 1..];
    var m := multiset(keys[..i]) + multiset(keys[i + 1..]);
    assert multiset(keys) == m + multiset{keys[i]};
    if exists j :: 0 <= j < |keys| && j != i && keys[j] == keys[i] {
      var j :| 0 <= j < |keys| && j != i && keys[j] == keys[i];
      if j < i {
        assert keys[..i][j] == keys[i];
      } else {
        assert keys[i + 1..][j - i - 1] == keys[i];
      }
      assert m[keys[i]] >= 1;
    } else {
      assert keys[i] !in keys[..i] by {
        assert forall j :: 0 <= j < i ==> keys[..i][j] == keys[j];
      }
      assert keys[i] !in keys[i + 1..] by {
        assert forall j :: i + 1 <= j < |keys| ==> keys[i + 1..][j - i - 1] == keys[j];
      }
    }
  }

  /** Under the table invariant, the count markDuplicateItems reads for a row is the row's multiplicity. */
  lemma CountOfRow(rows: seq<RouteRow>, i: int)
    requires 0 <= i < |rows|
    ensures GetOrDefault(Tally(Keys(rows)), rows[i].duplicateKey, 1) == Multiplicity(rows, rows[i].duplicateKey)
  {
    TallyCounts(Keys(rows));
    assert Keys(rows)[i] == rows[i].duplicateKey;
  }

  /** Marking leaves the keys, hence the counts, as they were. */
  lemma MarkedRowsKeys(rows: seq<RouteRow>)
    ensures Keys(MarkedRows(rows)) == Keys(rows)
  {
  }

  /** Emitting one more row is one more increment of its key. */
  lemma TallyRowsAppend(rows: seq<RouteRow>, row: RouteRow)
    ensures Tally(Keys(rows + [row])) == Increment(Tally(Keys(rows)), row.duplicateKey)
  {
    assert Keys(rows + [row]) == Keys(rows) + [row.duplicateKey];
    TallyAppend(Keys(rows), row.duplicateKey);
  }

  // ---------------------------------------------------------------------------
  // the run-wide table

  /** The routing rows of a run and the run-wide duplicate-count map, which always counts the keys of the rows. */
  class RouteTable {
    var rows: seq<RouteRow>
    var duplicateCountMap: map<string, nat>

    ghost predicate Valid()
      reads this
    {
      duplicateCountMap == Tally(Keys(rows))
    }

    constructor()
      ensures Valid() && rows == []
    {
      rows := [];
      duplicateCountMap := map[];
    }

    /** The count of a key, then addStrutsRow: one increment per emitted row. */
    method AddStrutsRow(row: RouteRow)
      modifies this
      requires Valid()
      ensures Valid() && rows == old(rows) + [row]
    {
      var key := row.duplicateKey;
      TallyRowsAppend(rows, row);
      duplicateCountMap := duplicateCountMap[key := GetOrDefault(duplicateCountMap, key, 0) + 1];
      rows := rows + [row];
    }

    /** The body of the action loop of parseSingleStrutsConfig: the rows of one action element. */
    method ParseAction(relativePath: string, formBeanMap: map<Option<string>, Option<string>>, action: Action)
      modifies this
      requires Valid()
      ensures Valid() && rows == old(rows) + ActionRows(relativePath, formBeanMap, action)
    {
      var formBeanType := FormBeanType(formBeanMap, action.name);
      if action.forwards == [] {
        AddStrutsRow(NewRow(relativePath, formBeanType, action, Some(""), Some("")));
      } else {
        assert action.forwards[..0] == [];
        AppendEmpty(rows);
        for j := 0 to |action.forwards|
          invariant Valid()
          invariant rows == old(rows) + ForwardRows(relativePath, formBeanType, action, action.forwards[..j])
        {
          var forward := action.forwards[j];
          ForwardRowsPrefix(relativePath, formBeanType, action, action.forwards, j);
          AppendAssoc(old(rows), ForwardRows(relativePath, formBeanType, action, action.forwards[..j]),
                      [NewRow(relativePath, formBeanType, action, forward.name, forward.path)]);
          AddStrutsRow(NewRow(relativePath, formBeanType, action, forward.name, forward.path));
        }
        assert action.forwards[..|action.forwards|] == action.forwards;
      }
    }

    /** parseSingleStrutsConfig: appends the file's rows and counts their keys. */
    method ParseStrutsConfig(relativePath: string, config: StrutsConfig)
      modifies this
      requires Valid()
      ensures Valid() && rows == old(rows) + ConfigRows(relativePath, config)
    {
      var formBeanMap := CollectFormBeans(config.formBeans);
      assert config.actions[..0] == [];
      AppendEmpty(rows);
      for i := 0 to |config.actions|
        invariant Valid()
        invariant rows == old(rows) + ActionsRows(relativePath, formBeanMap, config.actions[..i])
      {
        ActionsRowsPrefix(relativePath, formBeanMap, config.actions, i);
        AppendAssoc(old(rows), ActionsRows(relativePath, formBeanMap, config.actions[..i]),
                    ActionRows(relativePath, formBeanMap, config.actions[i]));
        ParseAction(relativePath, formBeanMap, config.actions[i]);
      }
      assert config.actions[..|config.actions|] == config.actions;
    }

    /** markDuplicateItems: every row gets the count of its key (getOrDefault(key, 1)) and the flag count > 1. */
    method MarkDuplicateItems()
      modifies this
      requires Valid()
      ensures Valid() && rows == MarkedRows(old(rows))
      ensures duplicateCountMap == old(duplicateCountMap)
    {
      ghost var original := rows;
      ghost var marked := MarkedRows(original);
      for i := 0 to |rows|
        invariant |rows| == |original| && duplicateCountMap == Tally(Keys(original))
        invariant forall j :: 0 <= j < i ==> rows[j] == marked[j]
        invariant forall j :: i <= j < |rows| ==> rows[j] == original[j]
      {
        var record := rows[i];
        var count := GetOrDefault(duplicateCountMap, record.duplicateKey, 1);
        CountOfRow(original, i);
        rows := rows[i := Annotated(record, count)];
      }
      assert rows == marked;
      MarkedRowsKeys(original);
    }

    /** One map increment per row: the counts add up to the number of rows. */
    lemma CountsSumToRows()
      requires Valid()
      ensures SumValues(duplicateCountMap) == |rows|
    {
      TallySum(Keys(rows));
    }
  }

  /** Two rows with different keys are each counted once and not flagged. */
  lemma TwoDistinctKeys(rows: seq<RouteRow>)
    requires |rows| == 2 && rows[0].duplicateKey != rows[1].duplicateKey
    ensures var marked := MarkedRows(rows);
            marked[0].duplicateCount == "1" && marked[1].duplicateCount == "1" &&
            marked[0].isDuplicate == NO && marked[1].isDuplicate == NO
  {
    assert Keys(rows) == [rows[0].duplicateKey, rows[1].duplicateKey];
  }

  /** The configuration of the routing example: form-bean userForm → com.x.UserForm and action
      /user/list with forwards success → /list.jsp and fail → /error.jsp. */
  const UserListBean := FormBean(Some("userForm"), Some("com.x.UserForm"))
  const UserListAction := Action(Some("/user/list"), Some("com.x.ListAction"), Some("userForm"),
                                 [Forward(Some("success"), Some("/list.jsp")), Forward(Some("fail"), Some("/error.jsp"))])
  const UserListConfig := StrutsConfig([UserListBean], [UserListAction])

  /** A configuration with a single action of two forwards yields one row per forward, in order. */
  lemma SingleActionRows(relativePath: string, beans: seq<FormBean>, action: Action)
    requires |action.forwards| == 2
    ensures var formBeanType := FormBeanType(FormBeanMap(beans), action.name);
            ConfigRows(relativePath, StrutsConfig(beans, [action])) ==
            [NewRow(relativePath, formBeanType, action, action.forwards[0].name, action.forwards[0].path),
             NewRow(relativePath, formBeanType, action, action.forwards[1].name, action.forwards[1].path)]
  {
    var formBeanMap := FormBeanMap(beans);
    var formBeanType := FormBeanType(formBeanMap, action.name);
    ActionsRowsPrefix(relativePath, formBeanMap, [action], 0);
    assert [action][..1] == [action] && [action][..0] == [];
    ForwardRowsAt(relativePath, formBeanType, action, action.forwards);
  }

  lemma UserListRows(relativePath: string)
    ensures ConfigRows(relativePath, UserListConfig) ==
            [NewRow(relativePath, Some("com.x.UserForm"), UserListAction, Some("success"), Some("/list.jsp")),
             NewRow(relativePath, Some("com.x.UserForm"), UserListAction, Some("fail"), Some("/error.jsp"))]
  {
    assert FormBeanType(FormBeanMap([UserListBean]), Some("userForm")) == Some("com.x.UserForm") by {
      assert [UserListBean][..0] == [];
    }
    SingleActionRows(relativePath, [UserListBean], UserListAction);
  }

  lemma UserListKey(forward: string)
    requires forward == "success" || forward == "fail"
    ensures DuplicateKey(Some("/user/list"), Some("com.x.UserForm"), Some(forward)) ==
            "/user/list" + "_" + "com.x.UserForm" + "_" + forward
  {
    TrimOfTrimmed("/user/list");
    TrimOfTrimmed("com.x.UserForm");
    TrimOfTrimmed(forward);
  }

  /** The routing example yields two rows, keyed by action path, form-bean type and forward name,
      each counted once and not flagged. */
  lemma UserListExample(relativePath: string)
    ensures var rows := MarkedRows(ConfigRows(relativePath, UserListConfig));
            |rows| == 2 &&
            rows[0].duplicateKey == "/user/list" + "_" + "com.x.UserForm" + "_" + "success" &&
            rows[1].duplicateKey == "/user/list" + "_" + "com.x.UserForm" + "_" + "fail" &&
            rows[0].duplicateCount == "1" && rows[1].duplicateCount == "1" &&
            rows[0].isDuplicate == NO && rows[1].isDuplicate == NO
  {
    UserListRows(relativePath);
    UserListKey("success");
    UserListKey("fail");
    var k0, k1 := "/user/list" + "_" + "com.x.UserForm" + "_" + "success", "/user/list" + "_" + "com.x.UserForm" + "_" + "fail";
    assert k0 != k1 by { assert k0[|k0| - 1] != k1[|k1| - 1]; }
    TwoDistinctKeys(ConfigRows(relativePath, UserListConfig));
  }
}
