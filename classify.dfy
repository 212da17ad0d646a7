/**
  * The pattern rule set and the field extractors applied to the text of a Java source.
  *
  * Regular-expression matching is not modelled: a `Finder` gives, for each of the
  * analyser's patterns and a text, the successive results of `Matcher.find()` with
  * the capture groups the analyser reads. The rules and their priority are data.
  */
module Classify {
  import opened Text
  import opened Seqs

  /** The compiled patterns of the analyser, one constructor per `Pattern.compile`. */
  datatype Pattern =
    | ClassDef                 // public class (\w+) (extends (\w+))?
    | ServiceInterfaceDef      // public interface (\w+service)
    | ServiceImplDef           // public class (\w+serviceimpl) (implements ([^{]+))?
    | ManagerInterfaceDef      // public interface (\w+manager)
    | ManagerImplDef           // public class (\w+managerimpl) (implements ([^{]+))?
    | DaoInterfaceDef          // public interface (\w+dao)
    | DaoImplDef               // public class (\w+daoimpl) (implements ([^{]+))?
    | PackageDecl              // package ([^;]+);
    | ServiceAnnotation        // @service
    | SofaServiceAnnotation    // @sofaservice(([^)]*))
    | BindingTypeAttr          // bindingtype = "([^"']+)"
    | TransactionalAnnotation  // @transactional
    | RepositoryAnnotation     // @repository
    | DoPath                   // (["'\s])(/[^"'\s]+\.do)(["'\s])

  /** One `find()` result: the name group (group 1; group 2 for DoPath) and group 3 where the
      pattern has one (the `extends` parent or the `implements` clause), None when it did not take part. */
  datatype Find = Find(group: string, tail: Option<string>)

  /** All successive matches of a pattern in a text, in order. */
  type Finder = (Pattern, string) -> seq<Find>

  const NO_PACKAGE := "无包名"
  const NO_INTERFACES := "无实现接口"
  const YES := "是"
  const NO := "否"
  const UNSPECIFIED := "未指定"
  /** extractSofaServiceInfo's result when the marker is absent. */
  const NO_SOFA_INFO := "无|无"

  function YesNo(b: bool): string {
    if b then YES else NO
  }

  /** The order in which extractClassName tries the definition patterns. */
  const ClassNameRules: seq<Pattern> :=
    [ClassDef, ServiceInterfaceDef, ServiceImplDef, ManagerInterfaceDef, ManagerImplDef, DaoInterfaceDef, DaoImplDef]

  /** The index of the first rule, in order, that matches the text at all, or -1. */
  function FirstMatchingRule(find: Finder, rules: seq<Pattern>, text: string): (i: int)
    ensures -1 <= i < |rules|
    ensures i == -1 <==> forall j :: 0 <= j < |rules| ==> find(rules[j], text) == []
    ensures i >= 0 ==> find(rules[i], text) != [] && forall j :: 0 <= j < i ==> find(rules[j], text) == []
  {
    if rules == [] then -1
    else if find(rules[0], text) != [] then 0
    else
      var k := FirstMatchingRule(find, rules[1..], text);
      assert forall j :: 1 <= j < |rules| ==> rules[j] == rules[1..][j - 1];
      if k == -1 then -1 else k + 1
  }

  /** extractClassName: the trimmed name of the first match of the first rule, in the fixed
      order ClassNameRules, that matches; None stands for Java's null. */
  function ExtractClassName(find: Finder, content: string): (r: Option<string>)
    ensures find(ClassDef, content) != [] ==> r == Some(Trim(find(ClassDef, content)[0].group))
    ensures r.None? <==> forall j :: 0 <= j < |ClassNameRules| ==> find(ClassNameRules[j], content) == []
    ensures r.Some? ==> exists i :: 0 <= i < |ClassNameRules| && FirstMatchingRule(find, ClassNameRules, content) == i &&
                          r.value == Trim(find(ClassNameRules[i], content)[0].group)
  {
    var i := FirstMatchingRule(find, ClassNameRules, content);
    if i == -1 then None else Some(Trim(find(ClassNameRules[i], content)[0].group))
  }

  /** extractPackageName */
  function ExtractPackageName(find: Finder, content: string): (r: string)
    ensures find(PackageDecl, content) == [] ==> r == NO_PACKAGE
    ensures find(PackageDecl, content) != [] ==> r == Trim(find(PackageDecl, content)[0].group)
  {
    var m := find(PackageDecl, content);
    if m == [] then NO_PACKAGE else Trim(m[0].group)
  }

  /** extractParentClassName: the trimmed `extends` group of the first class definition, or "". */
  function ExtractParentClassName(find: Finder, content: string): (r: string)
    ensures IsTrimmed(r)
    ensures find(ClassDef, content) == [] || find(ClassDef, content)[0].tail.None? ==> r == ""
    ensures find(ClassDef, content) != [] && find(ClassDef, content)[0].tail.Some? ==>
              r == Trim(find(ClassDef, content)[0].tail.value)
  {
    var m := find(ClassDef, content);
    if m == [] then ""
    else match m[0].tail
      case None => ""
      case Some(p) => if p == "" then "" else Trim(p)
  }

  /** Whether a marker pattern occurs anywhere in the text (`matcher(content).find()`). */
  predicate HasMarker(find: Finder, p: Pattern, content: string) {
    find(p, content) != []
  }

  // ---------------------------------------------------------------------------
  // extractImplementedInterfaces

  /** Trims each part and keeps the non-empty ones, in order. */
  function NonEmptyTrimmed(parts: seq<string>): (names: seq<string>)
    ensures |names| <= |parts|
  {
    if parts == [] then [] else Kept(parts[0]) + NonEmptyTrimmed(parts[1..])
  }

  /** The trimmed part, or nothing when it trims to "". */
  function Kept(part: string): seq<string> {
    var t := Trim(part);
    if t == [] then [] else [t]
  }

  /** Every kept part is non-empty and trimmed. */
  lemma {:induction false} NonEmptyTrimmedShape(parts: seq<string>)
    ensures forall i :: 0 <= i < |NonEmptyTrimmed(parts)| ==> NonEmptyTrimmed(parts)[i] != [] && IsTrimmed(NonEmptyTrimmed(parts)[i])
  {
    if parts != [] {
      NonEmptyTrimmedShape(parts[1..]);
    }
  }

  /** Trimming and dropping parts introduces no character the parts lack. */
  lemma {:induction false} NonEmptyTrimmedKeepsOut(parts: seq<string>, c: char)
    requires forall j :: 0 <= j < |parts| ==> c !in parts[j]
    ensures forall i :: 0 <= i < |NonEmptyTrimmed(parts)| ==> c !in NonEmptyTrimmed(parts)[i]
  {
    if parts != [] {
      TrimKeepsOut(parts[0], c);
      assert forall j :: 0 <= j < |parts| - 1 ==> parts[1..][j] == parts[j + 1];
      NonEmptyTrimmedKeepsOut(parts[1..], c);
    }
  }

  /** The loop of extractImplementedInterfaces: each part trimmed, the non-empty ones appended in order. */
  method CollectInterfaceNames(parts: seq<string>) returns (interfaceNames: seq<string>)
    ensures interfaceNames == NonEmptyTrimmed(parts)
  {
    interfaceNames := [];
    var i := 0;
    while i < |parts|
      invariant 0 <= i <= |parts|
      invariant interfaceNames + NonEmptyTrimmed(parts[i..]) == NonEmptyTrimmed(parts)
    {
      var interfaceName := Trim(parts[i]);
      NonEmptyTrimmedFrom(parts, i);
      AppendAssoc(interfaceNames, Kept(parts[i]), NonEmptyTrimmed(parts[i + 1..]));
      if interfaceName != "" {
        interfaceNames := interfaceNames + [interfaceName];
      } else {
        AppendEmpty(interfaceNames);
      }
      i := i + 1;
    }
    assert parts[i..] == [];
    AppendEmpty(interfaceNames);
  }

  /** The parts from `i` on keep the `i`-th part, then the ones after it. */
  lemma NonEmptyTrimmedFrom(parts: seq<string>, i: int)
    requires 0 <= i < |parts|
    ensures NonEmptyTrimmed(parts[i..]) == Kept(parts[i]) + NonEmptyTrimmed(parts[i + 1..])
  {
    assert parts[i..][1..] == parts[i + 1..];
  }

  /** The interface names of an implements clause: generics removed, split at commas, trimmed, empties dropped. */
  function InterfaceNames(clause: string): (names: seq<string>)
    ensures forall i :: 0 <= i < |names| ==> names[i] != [] && IsTrimmed(names[i]) && ',' !in names[i]
  {
    var parts := JavaSplit(StripGenerics(clause), ',');
    NonEmptyTrimmedKeepsOut(parts, ',');
    NonEmptyTrimmedShape(parts);
    NonEmptyTrimmed(parts)
  }

  /** Without generics, the names are the comma-separated parts, trimmed, empty ones dropped. */
  lemma InterfaceNamesOfParts(clause: string)
    requires '<' !in clause
    ensures InterfaceNames(clause) == NonEmptyTrimmed(JavaSplit(clause, ','))
  {
  }

  /** A generic argument is removed and the names around it are kept: `A<G>, B` names A and B. */
  lemma InterfaceNamesWithGenerics(a: string, g: string, b: string)
    requires a != [] && IsTrimmed(a) && '<' !in a && ',' !in a
    requires g != [] && '>' !in g
    requires b != [] && IsTrimmed(b) && '<' !in b && ',' !in b
    ensures InterfaceNames(a + "<" + g + ">, " + b) == [a, b]
  {
    assert a + "<" + g + ">, " + b == a + "<" + g + ">" + (", " + b);
    StripGenericsOne(a, g, ", " + b);
    SplitTwoNames(a, b);
  }

  /** "A, B" becomes the names A and B. */
  lemma SplitTwoNames(a: string, b: string)
    requires a != [] && IsTrimmed(a) && ',' !in a
    requires b != [] && IsTrimmed(b) && ',' !in b
    ensures NonEmptyTrimmed(JavaSplit(a + (", " + b), ',')) == [a, b]
  {
    assert a + (", " + b) == a + [','] + (" " + b);
    JavaSplitTwo(a, " " + b, ',');
    TrimTwo(a, b);
  }

  lemma JavaSplitTwo(a: string, b: string, sep: char)
    requires sep !in a && sep !in b && b != []
    ensures JavaSplit(a + [sep] + b, sep) == [a, b]
  {
    SplitAllAt(a, sep, b);
    assert SplitAll(a + [sep] + b, sep) == [a, b];
    assert sep in a + [sep] + b by {
      assert (a + [sep] + b)[|a|] == sep;
    }
  }

  lemma TrimTwo(a: string, b: string)
    requires a != [] && IsTrimmed(a)
    requires b != [] && IsTrimmed(b)
    ensures NonEmptyTrimmed([a, " " + b]) == [a, b]
  {
    TrimOfTrimmed(a);
    TrimAfterPadding(" ", b);
    NonEmptyTrimmedCons(a, [" " + b]);
    NonEmptyTrimmedCons(" " + b, []);
    assert [a, " " + b] == [a] + [" " + b];
    assert NonEmptyTrimmed([]) == [];
    assert [" " + b] + [] == [" " + b];
  }

  /** The worked case: "FooService<Bar>, BazService" names FooService and BazService. */
  lemma InterfaceNamesExample()
    ensures InterfaceNames("FooService<Bar>, BazService") == ["FooService", "BazService"]
  {
    assert "FooService<Bar>, BazService" == "FooService" + "<" + "Bar" + ">, " + "BazService";
    InterfaceNamesWithGenerics("FooService", "Bar", "BazService");
  }

  /** extractImplementedInterfaces: the names joined with ", ", or the sentinel when there are none. */
  function ExtractImplementedInterfaces(clause: Option<string>): (r: string)
    ensures r != ""
    ensures clause.None? || IsBlank(clause.value) ==> r == NO_INTERFACES
    ensures clause.Some? && InterfaceNames(clause.value) == [] ==> r == NO_INTERFACES
  {
    if clause.None? || IsBlank(clause.value) then NO_INTERFACES
    else
      var names := InterfaceNames(clause.value);
      if names == [] then NO_INTERFACES else JoinNonEmpty(names)
  }

  /** String.join(", ", names) for a non-empty list of non-empty names. */
  function JoinNonEmpty(names: seq<string>): (r: string)
    requires names != [] && names[0] != []
    ensures r != [] && r == Join(names, ", ")
  {
    if |names| == 1 then names[0] else names[0] + ", " + Join(names[1..], ", ")
  }

  /** Reading the column back: split at commas, trim, drop empties. */
  function ReadInterfaceList(column: string): seq<string>
  {
    NonEmptyTrimmed(SplitAll(column, ','))
  }

  lemma NonEmptyTrimmedCons(x: string, xs: seq<string>)
    requires Trim(x) != []
    ensures NonEmptyTrimmed([x] + xs) == [Trim(x)] + NonEmptyTrimmed(xs)
  {
    assert ([x] + xs)[1..] == xs;
  }

  /** Splitting "name, rest" at the first comma. */
  lemma SplitJoinedHead(pad: string, names: seq<string>)
    requires pad == "" || pad == " "
    requires |names| >= 2 && ',' !in names[0]
    ensures SplitAll(pad + Join(names, ", "), ',') == [pad + names[0]] + SplitAll(" " + Join(names[1..], ", "), ',')
  {
    var head, rest := pad + names[0], " " + Join(names[1..], ", ");
    assert pad + Join(names, ", ") == head + [','] + rest;
    SplitAllAt(head, ',', rest);
  }

  /** Names as InterfaceNames produces them: non-empty, trimmed and comma-free. */
  predicate WellFormedNames(names: seq<string>)
  {
    names == [] || (names[0] != [] && IsTrimmed(names[0]) && ',' !in names[0] && WellFormedNames(names[1..]))
  }

  lemma {:induction false} WellFormedNamesAt(names: seq<string>)
    requires forall i :: 0 <= i < |names| ==> names[i] != [] && IsTrimmed(names[i]) && ',' !in names[i]
    ensures WellFormedNames(names)
  {
    if names != [] {
      assert forall i :: 1 <= i < |names| ==> names[1..][i - 1] == names[i];
      WellFormedNamesAt(names[1..]);
    }
  }

  lemma ReadJoinedSingle(pad: string, name: string)
    requires pad == "" || pad == " "
    requires name != [] && IsTrimmed(name) && ',' !in name
    ensures ReadInterfaceList(pad + Join([name], ", ")) == [name]
  {
    TrimAfterPadding(pad, name);
    assert ',' !in pad + name;
    NonEmptyTrimmedCons(pad + name, []);
    assert [pad + name] + [] == [pad + name];
  }

  /** One more well-formed name in front of a list that already reads back. */
  lemma NonEmptyTrimmedStep(head: string, tail: seq<string>, names: seq<string>)
    requires |names| >= 1 && names[0] != [] && Trim(head) == names[0]
    requires NonEmptyTrimmed(tail) == names[1..]
    ensures NonEmptyTrimmed([head] + tail) == names
  {
    NonEmptyTrimmedCons(head, tail);
    assert [names[0]] + names[1..] == names;
  }

  lemma ReadJoinedStep(pad: string, names: seq<string>)
    requires pad == "" || pad == " "
    requires |names| >= 2 && names[0] != [] && IsTrimmed(names[0]) && ',' !in names[0]
    requires ReadInterfaceList(" " + Join(names[1..], ", ")) == names[1..]
    ensures ReadInterfaceList(pad + Join(names, ", ")) == names
  {
    SplitJoinedHead(pad, names);
    TrimAfterPadding(pad, names[0]);
    NonEmptyTrimmedStep(pad + names[0], SplitAll(" " + Join(names[1..], ", "), ','), names);
  }

  lemma {:induction false} ReadJoined(pad: string, names: seq<string>)
    requires pad == "" || pad == " "
    requires |names| >= 1 && WellFormedNames(names)
    ensures ReadInterfaceList(pad + Join(names, ", ")) == names
    decreases |names|
  {
    if |names| == 1 {
      ReadJoinedSingle(pad, names[0]);
      assert names == [names[0]];
    } else {
      ReadJoined(" ", names[1..]);
      ReadJoinedStep(pad, names);
    }
  }

  /** The implemented-interfaces column reads back as exactly the extracted names. */
  lemma ImplementedInterfacesRoundTrip(clause: string)
    requires InterfaceNames(clause) != [] && !IsBlank(clause)
    ensures ReadInterfaceList(ExtractImplementedInterfaces(Some(clause))) == InterfaceNames(clause)
  {
    WellFormedNamesAt(InterfaceNames(clause));
    ReadJoined("", InterfaceNames(clause));
    assert "" + Join(InterfaceNames(clause), ", ") == Join(InterfaceNames(clause), ", ");
  }

  // ---------------------------------------------------------------------------
  // extractSofaServiceInfo and its decoding

  /** The binding type the marker carries, when the marker is present. */
  function SofaBindingType(find: Finder, content: string): (r: Option<string>)
    ensures r.Some? <==> find(SofaServiceAnnotation, content) != []
  {
    var markers := find(SofaServiceAnnotation, content);
    if markers == [] then None
    else
      var bindings := find(BindingTypeAttr, markers[0].group);
      Some(if bindings == [] then UNSPECIFIED else Trim(bindings[0].group))
  }

  /** extractSofaServiceInfo: presence and binding type packed as "有|<type>" or "无|无". */
  function ExtractSofaServiceInfo(find: Finder, content: string): (info: string)
    ensures info == NO_SOFA_INFO <==> find(SofaServiceAnnotation, content) == []
  {
    match SofaBindingType(find, content)
    case None => NO_SOFA_INFO
    case Some(t) =>
      assert PackedPresent(t)[0] != NO_SOFA_INFO[0];
      PackedPresent(t)
  }

  /** The two report columns, decoded as at lines 616-617: `split("\\|")[1]`; None is the
      ArrayIndexOutOfBoundsException raised when the split yields fewer than two parts. */
  function SofaColumnsAsWritten(info: string): Option<(string, string)>
  {
    var parts := JavaSplit(info, '|');
    if |parts| < 2 then None else Some((YesNo(!StartsWith(info, "无")), parts[1]))
  }

  /** The two report columns, decoded by splitting at the first '|' only. */
  function SofaColumns(info: string): (string, string)
  {
    (YesNo(!StartsWith(info, "无")), if '|' in info then info[IndexOf(info, '|') + 1..] else "")
  }

  /** The packed marker text for a present marker, "有|" followed by the binding type. */
  function PackedPresent(bindingType: string): string {
    "有|" + bindingType
  }

  /** Decoding undoes the packing: a present marker decodes to "是" and exactly its binding type. */
  lemma SofaColumnsOfPacked(bindingType: string)
    ensures SofaColumns(PackedPresent(bindingType)) == (YES, bindingType)
    ensures SofaColumns(NO_SOFA_INFO) == (NO, "无")
  {
    var info := PackedPresent(bindingType);
    assert info[0] == '有' && info[1] == '|';
    assert IndexOf(info, '|') == 1;
    assert forall k :: 0 <= k < |bindingType| ==> info[2..][k] == bindingType[k];
    assert NO_SOFA_INFO[0] == '无' && NO_SOFA_INFO[1] == '|' && NO_SOFA_INFO[2..] == "无";
  }

  /** Marker flag and binding type are one correlated extraction. */
  lemma SofaMarkerCorrelated(find: Finder, content: string)
    ensures var markers := find(SofaServiceAnnotation, content);
            SofaColumns(ExtractSofaServiceInfo(find, content)) ==
              if markers == [] then (NO, "无")
              else if find(BindingTypeAttr, markers[0].group) == [] then (YES, UNSPECIFIED)
              else (YES, Trim(find(BindingTypeAttr, markers[0].group)[0].group))
  {
    match SofaBindingType(find, content)
    case None => SofaColumnsOfPacked("");
    case Some(t) => SofaColumnsOfPacked(t);
  }

  /** The two decodings agree on the packed texts of an absent marker and of a non-empty binding type without '|'. */
  lemma SofaDecodingsAgree(bindingType: string)
    requires bindingType != [] && '|' !in bindingType
    ensures SofaColumnsAsWritten(PackedPresent(bindingType)) == Some(SofaColumns(PackedPresent(bindingType)))
    ensures SofaColumnsAsWritten(NO_SOFA_INFO) == Some(SofaColumns(NO_SOFA_INFO))
  {
    assert PackedPresent(bindingType) == "有" + ['|'] + bindingType;
    SplitAllAt("有", '|', bindingType);
    assert NO_SOFA_INFO == "无" + ['|'] + "无";
    SplitAllAt("无", '|', "无");
    SofaColumnsOfPacked(bindingType);
  }

  /** A marker whose bindingType is blank packs to "有|", which the as-written decoding cannot split in two. */
  lemma SofaBlankBindingTypeAborts(find: Finder, content: string)
    requires find(SofaServiceAnnotation, content) != []
    requires var bindings := find(BindingTypeAttr, find(SofaServiceAnnotation, content)[0].group);
             bindings != [] && IsBlank(bindings[0].group)
    ensures ExtractSofaServiceInfo(find, content) == PackedPresent("")
    ensures SofaColumnsAsWritten(ExtractSofaServiceInfo(find, content)).None?
    ensures SofaColumns(ExtractSofaServiceInfo(find, content)) == (YES, "")
  {
    var info := PackedPresent("");
    assert info == "有" + ['|'] + "";
    SplitAllAt("有", '|', "");
    assert SplitAll(info, '|') == ["有", ""];
    assert DropTrailingEmpty(["有", ""]) == DropTrailingEmpty(["有"]);
    SofaColumnsOfPacked("");
  }

  /** A binding type containing '|' is cut at that character by the as-written decoding. */
  lemma SofaBarInBindingTypeTruncated(a: string, b: string)
    requires '|' !in a && '|' !in b && b != []
    ensures SofaColumnsAsWritten(PackedPresent(a + "|" + b)) == Some((YES, a))
    ensures SofaColumns(PackedPresent(a + "|" + b)) == (YES, a + "|" + b)
  {
    var info := PackedPresent(a + "|" + b);
    assert "有|" == "有" + ['|'];
    assert info == "有" + ['|'] + a + ['|'] + b;
    SplitThree("有", a, b, '|');
    assert info[0] != '无';
    SofaColumnsOfPacked(a + "|" + b);
  }
}
