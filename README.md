# CodeAnalysisTool — a verified model of its classification and deduplication core

`CodeAnalysisTool` walks a legacy Java web project and produces a spreadsheet report. This project models in Dafny the logic that decides what goes into that report:

- It builds the **Struts routing table**. There is one row per action forward, or one row for an action without forwards. It computes each row's duplicate key (action path, form-bean type and forward name, joined with `_`) and counts rows per key across the whole run. A second pass writes each row's count and the flag "是"/"否".
- It fills the **six category registries**: Service, ServiceImpl, Manager, ManagerImpl, Dao and DaoImpl interfaces and classes. Each registry is a set of lower-cased names plus a list of rows. A row is added only when its lower-cased name is new, so the first spelling and the first file seen win. The **Action class list** is not deduplicated.
- It applies the **field extractors**:
  - the class-name rules, tried in a fixed order;
  - the package name and the parent class, with their defaults "无包名", "未提取到类名" and "无父类";
  - the implemented-interfaces column, with generics stripped, split at commas, trimmed, empties dropped, joined with ", " and "无实现接口" otherwise;
  - the SofaService marker, packed as "有|type" or "无|无" and then decoded into two columns.
- It collects the **front-end `.do` references**. A first pass keeps one record per distinct path in a file. A second pass recounts the records by `file_path` key.
- It applies the **file-name tests** of the directory walks.
- It fixes the **report order**: every category list is sorted stably by lower-cased name.

Regular-expression matching is not modelled. A `Finder` is an arbitrary function that gives the successive `Matcher.find()` results of each of the tool's patterns on a text. Every statement about extraction therefore holds for whatever the patterns match. Java `null` is `Option.None`. `String.trim`, `toLowerCase` (ASCII), `split` (trailing empty strings dropped), `String.join`, `replaceAll("<[^>]+>", "")`, `String.valueOf(int)` and `compareTo` are written out in module `Text`.

Modules:
- `Text`: Java string operations.
- `Seqs`: sequence facts.
- `Counting`: the `getOrDefault(k, 0) + 1` count maps.
- `Classify`: patterns, rules and extractors.
- `Routes`: the routing table, as class `RouteTable`.
- `FileNames`: the walk predicates.
- `Registry`:
  - class `CategoryRegistry` for the six deduplicating registries;
  - class `ActionClassList`.
- `FrontEnd`: class `DoPathIndex`.
- `Report`: the in-place stable sort `SortRows`.

The imperative parts are classes with `modifies` clauses, each proved against a specification function:
- `parseSingleStrutsConfig`;
- `markDuplicateItems`;
- the per-category `while (matcher.find())` loops;
- `extractDoPathFromFile`;
- `countDoPathInFile`;
- the sorts.

The pure extractors are functions.

## Model

| member | source | states |
|---|---|---|
| Routes.KeyPart | CodeAnalysisTool.java:317-319 | one key component: null becomes "空", any other value is trimmed (properties in `Routes.NullAndBlankComponents`) |
| Routes.DuplicateKey | CodeAnalysisTool.java:316-321 | getDuplicateKey: the three components joined with `_` (read back by `Routes.DuplicateKeySplits`, `Routes.DuplicateKeyInjective`) |
| Routes.DuplicateKeySplits | CodeAnalysisTool.java:316-321 | when no component contains `_`, the key splits back into exactly its three normalised components |
| Routes.DuplicateKeyInjective | CodeAnalysisTool.java:316-321 | for `_`-free components, two keys are equal iff their three normalised components are pairwise equal |
| Routes.DuplicateKeyAmbiguous | CodeAnalysisTool.java:316-321 | components containing `_` collide: (a_b, c, f) and (a, b_c, f) give the same key |
| Routes.NullAndBlankComponents | CodeAnalysisTool.java:317-319 | a null component becomes "空", which differs from a blank one; a blank one becomes "", like an empty one |
| Routes.FormBeanMap | CodeAnalysisTool.java:286-290 | the map after the form-bean `put` loop (contents in `Routes.FormBeanMapContents`) |
| Routes.FormBeanType | CodeAnalysisTool.java:297 | `formBeanMap.getOrDefault(actionName, "")` (in `Routes.FormBeanTypeLastWins`) |
| Routes.NewRow | CodeAnalysisTool.java:300-311 | the row addStrutsRow builds, with its duplicate key and empty flag and count columns |
| Routes.ActionRows | CodeAnalysisTool.java:293-312 | the rows of one action element (shape in `Routes.ActionRowsShape`) |
| Routes.ConfigRows | CodeAnalysisTool.java:279-313 | the rows of one configuration file, action by action |
| Routes.LastBean | CodeAnalysisTool.java:286-290 | the index of the last form-bean with a name, or -1; no later bean has that name |
| Routes.FormBeanMapContents | CodeAnalysisTool.java:286-290 | a name is in the form-bean map iff some bean bears it, and it maps to the type of the last such bean (later beans overwrite) |
| Routes.FormBeanTypeLastWins | CodeAnalysisTool.java:297 | an action's form-bean type is the last matching bean's type (possibly null), or "" when no bean bears its name |
| Routes.CollectFormBeans | CodeAnalysisTool.java:286-290 | the form-bean loop builds exactly the last-write-wins map |
| Routes.ForwardRows | CodeAnalysisTool.java:305-311 | one row per forward |
| Routes.ForwardRowsAt | CodeAnalysisTool.java:305-311 | the i-th row is built from the i-th forward's name and path, in order |
| Routes.ActionRowsShape | CodeAnalysisTool.java:293-312 | an action without forwards gives exactly one row with forward name and path ""; with N forwards, exactly N rows in forward order. Every row carries the action's path, type and name, the resolved form-bean type, the key of those values, and empty flag and count columns |
| Routes.SingleActionRows | CodeAnalysisTool.java:292-312 | a configuration with one two-forward action yields exactly its two rows, in order |
| Routes.UserListRows | CodeAnalysisTool.java:279-313 | the userForm / `/user/list` configuration yields the success row, then the fail row, with type com.x.UserForm |
| Routes.UserListKey | CodeAnalysisTool.java:316-321 | the example's keys are `/user/list_com.x.UserForm_success` and `..._fail` |
| Routes.UserListExample | CodeAnalysisTool.java:279-352 | end to end: two rows with those keys, each counted "1" and flagged "否" |
| Routes.MarkedRows | CodeAnalysisTool.java:346-352 | markDuplicateItems on values: same length, and each row annotated with the multiplicity of its key |
| Routes.Annotated | CodeAnalysisTool.java:348-350 | the flag is "是" iff the count exceeds 1, the count column is its decimal text, and no other column changes |
| Routes.MarkedRowsFlags | CodeAnalysisTool.java:346-352 | after marking, each row's key occurs at least once, and its flag is "是" iff another row shares its key |
| Routes.KeySharedIff | CodeAnalysisTool.java:346-352 | a key occurs more than once iff another index holds it |
| Routes.CountOfRow | CodeAnalysisTool.java:348 | under the table invariant, `getOrDefault(key, 1)` reads exactly the number of rows with that key |
| Routes.MarkedRowsKeys | CodeAnalysisTool.java:346-352 | marking leaves every row's key, and hence the counts, unchanged |
| Routes.TallyRowsAppend | CodeAnalysisTool.java:309 | one more row is one increment of its key's count |
| Routes.TwoDistinctKeys | CodeAnalysisTool.java:346-352 | two rows with different keys are each counted "1" and flagged "否" |
| Routes.RouteTable.AddStrutsRow | CodeAnalysisTool.java:308-310 | one increment of the row's key, then the row is appended; the count map still equals the tally of the row keys |
| Routes.RouteTable.ParseAction | CodeAnalysisTool.java:293-312 | appends exactly the action's rows and keeps the count map equal to the tally of the keys |
| Routes.RouteTable.ParseStrutsConfig | CodeAnalysisTool.java:279-313 | appends exactly the configuration's rows, action by action, and keeps the count invariant |
| Routes.RouteTable.MarkDuplicateItems | CodeAnalysisTool.java:346-352 | every row gets its key's multiplicity; length, order, every other column and the count map are unchanged |
| Routes.RouteTable.CountsSumToRows | CodeAnalysisTool.java:302-309 | one increment per emitted row: the counts sum to the number of rows |
| Counting.Tally | CodeAnalysisTool.java:302 | the count map after one `getOrDefault(k, 0) + 1` per key (contents in `Counting.TallyCounts`) |
| Counting.TallyCounts | CodeAnalysisTool.java:302 | the count map holds exactly the keys seen, each with its number of occurrences |
| Counting.TallyAppend | CodeAnalysisTool.java:302 | counting one more key is one `getOrDefault(k, 0) + 1` update |
| Counting.Increment | CodeAnalysisTool.java:302 | the update adds the key, raises its count by one and leaves every other count alone |
| Counting.SumValuesIncrement | CodeAnalysisTool.java:302 | one update raises the sum of the counts by one |
| Counting.TallySum | CodeAnalysisTool.java:302 | the counts of a list of keys sum to its length |
| Classify.FirstMatchingRule | CodeAnalysisTool.java:219-255 | the first rule, in order, with a match, or -1 iff no rule matches; no earlier rule matches |
| Classify.ExtractClassName | CodeAnalysisTool.java:219-255 | a class definition match always wins; null iff none of the seven patterns matches; otherwise the trimmed first match of the first matching rule |
| Classify.ExtractPackageName | CodeAnalysisTool.java:509-514 | "无包名" when there is no package declaration, the trimmed first one otherwise |
| Classify.ExtractParentClassName | CodeAnalysisTool.java:500-507 | "" when there is no class definition or its first one has no `extends` group; otherwise the trimmed group. The result is always trimmed |
| Classify.HasMarker | CodeAnalysisTool.java:612 | `PATTERN.matcher(content).find()` for a marker annotation; also lines 774, 777 and 898 |
| Classify.NonEmptyTrimmed | CodeAnalysisTool.java:647-653 | the parts trimmed, the empty ones dropped, in order; never longer than the parts |
| Classify.CollectInterfaceNames | CodeAnalysisTool.java:647-653 | the loop appends exactly the trimmed non-empty parts, in order |
| Classify.NonEmptyTrimmedShape | CodeAnalysisTool.java:647-653 | every kept name is non-empty and trimmed |
| Classify.NonEmptyTrimmedKeepsOut | CodeAnalysisTool.java:645-653 | trimming and dropping parts adds no character, so no kept name contains a comma |
| Classify.InterfaceNames | CodeAnalysisTool.java:643-653 | the names are non-empty, trimmed and comma-free |
| Classify.InterfaceNamesOfParts | CodeAnalysisTool.java:644-653 | for a clause without generics, the names are exactly the comma-separated parts, trimmed, with the empty ones dropped, in order |
| Classify.InterfaceNamesWithGenerics | CodeAnalysisTool.java:644-653 | `A<G>, B` names exactly A and B, for trimmed, comma- and `<`-free A and B and any non-empty G without `>` |
| Classify.SplitTwoNames | CodeAnalysisTool.java:646-653 | "A, B" splits and trims to exactly [A, B] |
| Classify.InterfaceNamesExample | CodeAnalysisTool.java:644-655 | "FooService<Bar>, BazService" names exactly FooService and BazService |
| Classify.ExtractImplementedInterfaces | CodeAnalysisTool.java:637-656 | never ""; "无实现接口" for a null or blank clause and when no name remains |
| Classify.JoinNonEmpty | CodeAnalysisTool.java:655 | `String.join(", ", names)`, never empty |
| Classify.ImplementedInterfacesRoundTrip | CodeAnalysisTool.java:637-656 | reading the column back (split at commas, trim, drop empties) yields exactly the extracted names |
| Classify.ReadJoined | CodeAnalysisTool.java:655 | joining well-formed names with ", " and reading them back is the identity |
| Classify.SofaBindingType | CodeAnalysisTool.java:658-667 | a binding type exists iff the SofaService marker is present |
| Classify.ExtractSofaServiceInfo | CodeAnalysisTool.java:658-669 | the packed text is "无\|无" iff the marker is absent |
| Classify.SofaColumnsAsWritten | CodeAnalysisTool.java:616-617 | the as-written decoding: flag from the leading "无", binding type `split("\\|")[1]`; None for the out-of-bounds abort |
| Classify.SofaColumns | CodeAnalysisTool.java:616-617 | the corrected decoding: flag from the leading "无", binding type after the first `\|` (properties in `Classify.SofaColumnsOfPacked`) |
| Classify.SofaColumnsOfPacked | CodeAnalysisTool.java:615-617 | decoding undoes the packing: "有\|t" gives ("是", t) for every t; "无\|无" gives ("否", "无") |
| Classify.SofaMarkerCorrelated | CodeAnalysisTool.java:658-669 | the two columns are correlated: no marker gives ("否", "无"); a marker without bindingType gives ("是", "未指定"); otherwise ("是", the trimmed value) |
| Classify.SofaBlankBindingTypeAborts | CodeAnalysisTool.java:617 | with a blank bindingType, the as-written decode `split("\\|")[1]` has no second part |
| Classify.SofaBarInBindingTypeTruncated | CodeAnalysisTool.java:617 | a binding type containing `\|` is cut at it by the as-written decode, and kept whole by the corrected one |
| FileNames.IsPrunedDirectory | CodeAnalysisTool.java:192 | the `build` directory test, ignoring case (examples in `FileNames.PrunedDirectoryExamples`) |
| FileNames.IsStrutsConfigFile | CodeAnalysisTool.java:270-271 | the lower-cased name contains "struts" and ends with ".xml" |
| FileNames.IsJavaFile | CodeAnalysisTool.java:538 | `fileName.endsWith(".java")`, case-sensitive |
| FileNames.IsActionFile | CodeAnalysisTool.java:465-467 | a `.java` file whose stem, lower-cased, ends with "action" (in `FileNames.ActionFileStem`) |
| FileNames.IsFrontEndFile | CodeAnalysisTool.java:383-385 | the suffix is jsp, html or js (in `FileNames.FrontEndFiles`) |
| FileNames.Suffix | CodeAnalysisTool.java:384 | the suffix contains no '.' and is no longer than the name |
| FileNames.SuffixEnds | CodeAnalysisTool.java:383-384 | the suffix is s (non-empty) iff the lower-cased name ends with "." + s and has at least one character before the dot |
| FileNames.FrontEndFiles | CodeAnalysisTool.java:383-385 | a front-end file is one whose lower-cased name ends in ".jsp", ".html" or ".js" after at least one character |
| FileNames.HiddenFileHasNoSuffix | CodeAnalysisTool.java:384 | ".js" has no suffix, because its dot is at index 0 |
| FileNames.UpperCaseSuffix | CodeAnalysisTool.java:383-385 | "Page.JSP" is a front-end file |
| FileNames.SuffixAfterLastDot | CodeAnalysisTool.java:384 | "a.min.js" has suffix "js" |
| FileNames.JsonIsNotFrontEnd | CodeAnalysisTool.java:385 | "script.json" is not a front-end file |
| FileNames.PrunedDirectoryExamples | CodeAnalysisTool.java:192 | the `build` prune ignores case and nothing else |
| FileNames.StrutsConfigExamples | CodeAnalysisTool.java:270-271 | "Struts-Config.XML" is parsed; "struts.xml.bak" is not |
| FileNames.JavaFileDot | CodeAnalysisTool.java:464-465 | the last '.' of a Java source name is the one of ".java" |
| FileNames.ActionFileStem | CodeAnalysisTool.java:464-466 | an Action source is a `.java` file whose stem, lower-cased, ends with "action" |
| Registry.MatchRecords | CodeAnalysisTool.java:550-551 | one candidate row per `find()` match, in match order |
| Registry.Candidates | CodeAnalysisTool.java:548-551 | the candidate rows of one file for a category's definition pattern |
| Registry.Admit | CodeAnalysisTool.java:550-565 | the rows the dedup set lets through, in order (properties in `Registry.AdmitDistinct`, `Registry.AdmitOnlyFirst`, `Registry.AdmitEveryFirst`) |
| Registry.CandidateRecord | CodeAnalysisTool.java:601-631 | the row of a match carries the trimmed name in its original case, the file's package and the file's path |
| Registry.FilesCandidatesSnoc | CodeAnalysisTool.java:526-544 | one more file adds its candidates when it is a Java source, and nothing otherwise |
| Registry.CanonicalNamesAppend | CodeAnalysisTool.java:553 | the lower-cased names of two lists are the union of their names |
| Registry.AdmitDistinct | CodeAnalysisTool.java:550-565 | admitted rows have names not already seen and pairwise distinct lower-cased names |
| Registry.AdmitNames | CodeAnalysisTool.java:550-565 | the admitted lower-cased names are exactly the candidates' names not seen before |
| Registry.AdmitOnlyFirst | CodeAnalysisTool.java:550-565 | every admitted row is the first candidate with its lower-cased name |
| Registry.AdmitEveryFirst | CodeAnalysisTool.java:550-565 | every first candidate with an unseen name is admitted |
| Registry.AdmitAppend | CodeAnalysisTool.java:526-565 | registering two batches in turn equals registering them together |
| Registry.AdmitSnoc | CodeAnalysisTool.java:553-556 | one more candidate is admitted iff its lower-cased name is unseen |
| Registry.DistinctSnoc | CodeAnalysisTool.java:553-556 | appending a row with a new lower-cased name keeps the names distinct and adds that name |
| Registry.CaseVariantsKeepFirst | CodeAnalysisTool.java:553-556 | of two spellings of one name, only the first is kept, in its own casing |
| Registry.CategoryRegistry.constructor | CodeAnalysisTool.java:41-45 | an empty name set and an empty list, consistent with each other |
| Registry.CategoryRegistry.Register | CodeAnalysisTool.java:553-563 | appends the row iff its lower-cased name is not in the set, adds the name, and keeps set = names of rows, distinct |
| Registry.CategoryRegistry.ParseFile | CodeAnalysisTool.java:546-566 | every match of the file is offered in order; exactly the first-seen new names are appended; the set grows by all matched names |
| Registry.CategoryRegistry.ScanFiles | CodeAnalysisTool.java:526-544 | a walk registers exactly the first-seen names over all Java sources, in walk order |
| Registry.ServiceImplSofaColumns | CodeAnalysisTool.java:614-617 | a ServiceImpl row's SofaService flag and binding type come from one correlated extraction, decoded at the first `\|` |
| Registry.ServiceImplSofaAsWritten | CodeAnalysisTool.java:614-617 | with no marker, no bindingType, or a binding type that is not blank and has no `\|`, the as-written `split("\\|")[1]` decoding gives exactly the row's two columns |
| Classify.SofaDecodingsAgree | CodeAnalysisTool.java:615-617 | the as-written and the corrected decoding agree on "无\|无" and on "有\|t" for every non-empty t without `\|` |
| Registry.ActionRecord | CodeAnalysisTool.java:476-498 | the class name and parent class are never empty; the row keeps the file's path |
| Registry.ActionRecordDefaults | CodeAnalysisTool.java:476-498 | the class name is "未提取到类名" when none is found or it is "", the extracted name otherwise; the parent is "无父类" when the extracted parent is "", the extracted parent otherwise; the package as extracted |
| Registry.ActionParentColumn | CodeAnalysisTool.java:490-506 | the parent column is the trimmed `extends` group of the first class definition when that exists and does not trim to "", and "无父类" otherwise |
| Registry.ActionRecords | CodeAnalysisTool.java:451-474 | the Action rows of a walk (in `Registry.ActionRecordsPerFile`) |
| Registry.ActionFilesFilter | CodeAnalysisTool.java:462-467 | exactly the Action sources are kept, each as often as it occurs |
| Registry.ActionRecordsPerFile | CodeAnalysisTool.java:451-474 | one row per Action source, in walk order |
| Registry.ActionRecordsSingle | CodeAnalysisTool.java:462-468 | a single file gives its row iff it is an Action source |
| Registry.ActionListKeepsRepeats | CodeAnalysisTool.java:516-523 | the same Action source seen twice gives two rows: the list is not deduplicated |
| Registry.ActionClassList.ParseActionJavaFile | CodeAnalysisTool.java:476-523 | appends exactly one row, with the defaults applied |
| Registry.ActionClassList.ScanFiles | CodeAnalysisTool.java:451-474 | appends the rows of the Action sources of the walk, in order |
| FrontEnd.DoPathSet | CodeAnalysisTool.java:397-404 | the set of non-empty trimmed `.do` paths of a file (members in `FrontEnd.DoPathSetMembers`) |
| FrontEnd.DoPathSetMembers | CodeAnalysisTool.java:397-404 | a path is collected iff it is non-empty and some match trims to it |
| FrontEnd.DoPathSetHas | CodeAnalysisTool.java:399-403 | every non-empty trimmed match is collected |
| FrontEnd.DoPathSetWitness | CodeAnalysisTool.java:399-403 | every collected path comes from a match |
| FrontEnd.DoPathSetSnoc | CodeAnalysisTool.java:399-403 | one more match adds its trimmed path, unless that path is empty |
| FrontEnd.CollectDoPaths | CodeAnalysisTool.java:397-404 | the first loop collects exactly that set |
| FrontEnd.PathRecordsAt | CodeAnalysisTool.java:406-411 | one record per enumerated path, with the file's path and count "1" |
| FrontEnd.PathRecordsSnoc | CodeAnalysisTool.java:406-411 | one more path appends its record |
| FrontEnd.EnumerationSize | CodeAnalysisTool.java:406 | an enumeration of the set has one entry per element |
| FrontEnd.DoPathIndex.ExtractDoPathFromFile | CodeAnalysisTool.java:393-412 | appends one record per distinct non-empty trimmed path of the file, in some enumeration order, each counted "1" |
| FrontEnd.Recounted | CodeAnalysisTool.java:437-448 | countDoPathInFile on values (in `FrontEnd.RecountedShape`) |
| FrontEnd.RecountedShape | CodeAnalysisTool.java:437-448 | recounting keeps length, order, file and path; each count is the decimal number (at least 1) of records sharing the `file_path` key |
| FrontEnd.UniqueKeyCount | CodeAnalysisTool.java:439-441 | a key held by one index only is counted once |
| FrontEnd.DistinctKeysCountOne | CodeAnalysisTool.java:437-448 | with pairwise different keys every count stays "1" |
| FrontEnd.OneFileCountsStayOne | CodeAnalysisTool.java:406-448 | the records of one file's distinct paths keep count "1" after recounting |
| FrontEnd.RecordKeyInjective | CodeAnalysisTool.java:439 | for file paths without `_`, two records share a key iff they share file and path |
| FrontEnd.SplitFirst | CodeAnalysisTool.java:439 | such a key splits at its first `_` into file and path |
| FrontEnd.KeyCollisionAcrossFiles | CodeAnalysisTool.java:439 | records of different files can share a key: ("x.jsp", "/y.jsp_/c.do") and ("x.jsp_/y.jsp", "/c.do") |
| FrontEnd.CountOfKey | CodeAnalysisTool.java:444-446 | the first pass's map holds each record's key, with the number of records sharing it |
| FrontEnd.CountKeys | CodeAnalysisTool.java:438-442 | the first loop builds exactly the tally of the records' `file_path` keys |
| FrontEnd.RewriteCounts | CodeAnalysisTool.java:444-447 | given that tally, the second loop rewrites every count to its key's multiplicity, as `Recounted` does |
| FrontEnd.DoPathIndex.CountDoPathInFile | CodeAnalysisTool.java:437-448 | every record's count becomes the number of records sharing its key; nothing else changes |
| Report.SortByName | CodeAnalysisTool.java:992 | stable insertion sort by lower-cased name, the reference for `Collections.sort` (in `Report.SortByNameSorted`, `Report.SortByNamePermutes`, `Report.SortByNameStable`) |
| Report.SortByNameSorted | CodeAnalysisTool.java:992 | the stable sort is ordered by lower-cased name and has the input's length |
| Report.SortByNamePermutes | CodeAnalysisTool.java:992 | the sort is a permutation of its input (same multiset) |
| Report.SortByNameStable | CodeAnalysisTool.java:992 | rows with the same lower-cased name keep their relative order |
| Report.StableSortUnique | CodeAnalysisTool.java:992 | any sorted list that keeps every name's rows in input order is the stable sort, so the order is fully determined |
| Report.SortedSameKeysEqual | CodeAnalysisTool.java:992 | two sorted lists with the same rows per name are equal |
| Report.InsertSorted | CodeAnalysisTool.java:992 | inserting into a sorted list keeps it sorted and adds exactly the new row |
| Report.InsertMultiset | CodeAnalysisTool.java:992 | insertion adds exactly the new row |
| Report.InsertWithKey | CodeAnalysisTool.java:992 | insertion places a row after the rows with its own name and leaves other names' rows untouched |
| Report.WithKeyMember | CodeAnalysisTool.java:992 | a name's rows are rows of the list bearing that name |
| Report.ReportOrder | CodeAnalysisTool.java:992 | each category sheet is written sorted, as a permutation of its rows, with equal names in input order |
| Report.SortRows | CodeAnalysisTool.java:992 | sorting the array in place leaves exactly the stable sort of its old contents |
| Report.InsertRow | CodeAnalysisTool.java:992 | one insertion step moves the next row left past the greater names only |
| Text.Lower | CodeAnalysisTool.java:553 | `toLowerCase`: same length, each character lower-cased (ASCII) |
| Text.JavaSplit | CodeAnalysisTool.java:646 | `String.split` with one character: separator-free pieces, trailing empty pieces dropped |
| Text.StripGenerics | CodeAnalysisTool.java:644 | `replaceAll("<[^>]+>", "")`: never longer, identity without `<` |
| Text.Trim | CodeAnalysisTool.java:222 | trim yields a string without leading or trailing blanks; it is empty iff the input is blank |
| Text.TrimDecomposes | CodeAnalysisTool.java:222 | a non-blank input is blank padding, then the trimmed text, then blank padding |
| Text.TrimUnique | CodeAnalysisTool.java:222 | stripping blank padding from a non-empty trimmed string gives back exactly that string |
| Text.LastIndexOf | CodeAnalysisTool.java:384 | the last index of a character, or -1 iff it does not occur; nothing after it matches |
| Text.JoinSplit | CodeAnalysisTool.java:645-655 | joining the pieces of a split rebuilds the string |
| Text.SplitJoin | CodeAnalysisTool.java:645-655 | splitting a join of separator-free parts gives the parts back |
| Text.StripGenericsKeepsOut | CodeAnalysisTool.java:644 | removing `<...>` segments introduces no character |
| Text.Decimal | CodeAnalysisTool.java:350 | `String.valueOf(int)`: at least one digit, digits only |
| Text.DecimalReadsBack | CodeAnalysisTool.java:350 | the count column reads back as the count, and starts with '0' only for 0 |
| Text.DecimalInjective | CodeAnalysisTool.java:446 | two count columns are equal iff the counts are |
| Text.StripGenericsOne | CodeAnalysisTool.java:644 | one `<G>` (G non-empty, without `>`) between text without `<` is removed, and nothing else changes |
| Text.LexLeTotal | CodeAnalysisTool.java:992 | compareTo order: any two strings are comparable |
| Text.LexLeAntisymmetric | CodeAnalysisTool.java:992 | compareTo order: mutual ≤ means equal |
| Text.LexLeTransitive | CodeAnalysisTool.java:992 | compareTo order is transitive |

The same `Collections.sort` by lower-cased name appears at CodeAnalysisTool.java lines 992, 1012, 1033, 1056, 1076, 1098 and 1118, once per sheet. `Report.SortRows` models each of them.

Behaviour of the code worth noting:
- A duplicate-key component that is blank after trimming becomes "", not the "空" sentinel. Only null becomes "空" (`Routes.NullAndBlankComponents`).
- An absent SofaService marker gives binding type "无". "未指定" appears only for a marker without `bindingType` (`Classify.SofaMarkerCorrelated`).
- Each `while (matcher.find())` loop registers every match in a file, not only the first (`Registry.CategoryRegistry.ParseFile`).
- A front-end record's count is not the number of occurrences of its path in the file. Paths are deduplicated per file before recounting, so every count is "1" (`FrontEnd.OneFileCountsStayOne`). The exception is when keys of different files collide through `_` (`FrontEnd.KeyCollisionAcrossFiles`).

## Left out

- Registry.CandidateRecord: a ServiceImpl row's SofaService columns use the corrected decoding `Classify.SofaColumns` (split at the first `|`), not the as-written `split("\\|")[1]` at line 617. The model does not capture the two inputs on which they differ. A blank binding type makes the source throw `ArrayIndexOutOfBoundsException`, which ends the run without a workbook; the model stores ("是", ""). A binding type containing `|` is cut at it by the source and kept whole by the model. See "## Findings"; `Registry.ServiceImplSofaAsWritten` proves the two agree on every other input.
- File reading (`readFileContent`, with its UTF-8 then GBK fallback): a file's content is a given string.
- `loadConfig`, `main` and its argument checks: properties-file and console I/O.
- The recursive directory walks: the model keeps their file-name tests (module `FileNames`). A walk is given as the list of files in the order `listFiles` returns them, and that order is not modelled.
- Relative paths (`ROOT_DIR.toURI().relativize(...)`): a given string per file.
- dom4j XML parsing: a Struts configuration is its form-bean and action elements with their forward children, in document order. An absent attribute is None. An XML parse failure, which aborts the run, is not modelled.
- Apache POI workbook writing and column sizing: only the sorts are modelled.
- `printDuplicateSummary`: console output only.
- `preScanAllJavaFiles` and `classNameToRelativePathMap`: not read by any report column.
- `java.util.regex` semantics (backtracking, `CASE_INSENSITIVE`, line bounds): the patterns are abstract. Their matches are an arbitrary `Finder`.
- `toLowerCase` is ASCII lower-casing. Full Unicode case mapping is not modelled.
- `compareTo` orders strings by code point (`Text.LexLe`). Java compares UTF-16 code units, which differ only for characters outside the Basic Multilingual Plane.
- `Integer` overflow of the counters above 2^31 - 1: counts are unbounded naturals.
- `HashSet` iteration order in `extractDoPathFromFile`: the records follow an arbitrary enumeration of the set. `FrontEnd.DoPathIndex.ExtractDoPathFromFile` returns it as a ghost value and proves it lists each path once.
- Console progress messages.

## Findings

| source | as written | input that shows it | evidently intended | confidence | as-written member | corrected member |
|---|---|---|---|---|---|---|
| CodeAnalysisTool.java:617 | the binding type is decoded as `sofaServiceInfo.split("\\|")[1]` | a marker whose `bindingType` is blank, such as `bindingType=" "`: the packed text "有\|" splits into one part, and index 1 aborts the scan. A binding type `a\|b` is cut to `a` | the binding-type column is exactly the value packed after the first `\|` | not executed | Classify.SofaColumnsAsWritten (Classify.SofaBlankBindingTypeAborts, Classify.SofaBarInBindingTypeTruncated) | Classify.SofaColumns (Classify.SofaColumnsOfPacked, Classify.SofaMarkerCorrelated) |
