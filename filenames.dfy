/**
  * The file-name tests the directory walks apply before reading a file: the pruned
  * `build` directory, the Struts configuration filter, the front-end suffix test,
  * the Java source filter and the Action source filter.
  */
module FileNames {
  import opened Text

  /** `dir.getName().equalsIgnoreCase("build")`: a directory no walk enters. */
  predicate IsPrunedDirectory(name: string) {
    Lower(name) == "build"
  }

  /** The lower-cased file name contains "struts" and ends with ".xml". */
  predicate IsStrutsConfigFile(name: string) {
    Contains(Lower(name), "struts") && EndsWith(Lower(name), ".xml")
  }

  /** `name.endsWith(".java")`, case-sensitive. */
  predicate IsJavaFile(name: string) {
    EndsWith(name, ".java")
  }

  /** A Java source whose name without the extension ends with "action", ignoring case. */
  predicate IsActionFile(name: string) {
    IsJavaFile(name) &&
    var dot := LastIndexOf(name, '.');
    dot >= 0 && EndsWith(Lower(name[..dot]), "action")
  }

  const FRONT_END_SUFFIXES: seq<string> := ["jsp", "html", "js"]

  /** The lower-cased text after the last '.', or "" when there is no '.' past the first character. */
  function Suffix(name: string): (suffix: string)
    ensures '.' !in suffix
    ensures |suffix| <= |name|
  {
    var lower := Lower(name);
    var dot := LastIndexOf(lower, '.');
    if dot > 0 then lower[dot + 1..] else ""
  }

  /** One of the front-end types jsp, html or js, by the suffix above. */
  predicate IsFrontEndFile(name: string) {
    Suffix(name) in FRONT_END_SUFFIXES
  }

  /** The last '.' of a Java source name is the one of ".java". */
  lemma JavaFileDot(name: string)
    requires IsJavaFile(name)
    ensures LastIndexOf(name, '.') == |name| - 5
  {
    assert name[|name| - 5..] == ".java";
    assert name[|name| - 5] == '.';
    assert forall k :: |name| - 5 < k < |name| ==> name[k] == name[|name| - 5..][k - (|name| - 5)];
  }

  /** An Action source is a Java source whose stem, lower-cased, ends with "action". */
  lemma ActionFileStem(name: string)
    ensures IsActionFile(name) <==> IsJavaFile(name) && EndsWith(Lower(name[..|name| - 5]), "action")
  {
    if IsJavaFile(name) {
      JavaFileDot(name);
    }
  }

  /** The suffix is what follows a '.' at index at least 1 that ends the lower-cased name. */
  lemma SuffixEnds(name: string, s: string)
    requires '.' !in s
    ensures Suffix(name) == s && s != [] <==>
            s != [] && |name| > |s| + 1 && EndsWith(Lower(name), ['.'] + s)
  {
    if s != [] && |name| > |s| + 1 && EndsWith(Lower(name), ['.'] + s) {
      EndingGivesSuffix(name, s);
    }
    if Suffix(name) == s && s != [] {
      SuffixGivesEnding(name);
    }
  }

  lemma EndingGivesSuffix(name: string, s: string)
    requires '.' !in s && |name| > |s| + 1
    requires EndsWith(Lower(name), ['.'] + s)
    ensures Suffix(name) == s
  {
    var lower := Lower(name);
    var d := |lower| - |s| - 1;
    assert lower[d..] == ['.'] + s;
    assert lower[d] == '.';
    assert lower[d + 1..] == s;
    forall k | d < k < |lower|
      ensures lower[k] != '.'
    {
      assert lower[k] == s[k - d - 1];
    }
    assert LastIndexOf(lower, '.') == d;
  }

  lemma SuffixGivesEnding(name: string)
    requires Suffix(name) != []
    ensures |name| > |Suffix(name)| + 1 && EndsWith(Lower(name), ['.'] + Suffix(name))
  {
    var lower := Lower(name);
    var dot := LastIndexOf(lower, '.');
    assert dot > 0;
    assert lower[dot..] == ['.'] + lower[dot + 1..];
  }

  /** A front-end file ends in ".jsp", ".html" or ".js" in any case, with at least one character before the dot. */
  lemma FrontEndFiles(name: string)
    ensures IsFrontEndFile(name) <==>
            exists s :: s in FRONT_END_SUFFIXES && |name| > |s| + 1 && EndsWith(Lower(name), ['.'] + s)
  {
    SuffixEnds(name, "jsp");
    SuffixEnds(name, "html");
    SuffixEnds(name, "js");
  }

  /** A hidden file named ".js" has no suffix. */
  lemma HiddenFileHasNoSuffix()
    ensures Suffix(".js") == ""
  {
    assert Lower(".js") == ".js";
    assert LastIndexOf(".js", '.') == 0;
  }

  /** The suffix is lower-cased. */
  lemma UpperCaseSuffix()
    ensures IsFrontEndFile("Page.JSP")
  {
    assert Lower("Page.JSP") == "page.jsp";
    SuffixEnds("Page.JSP", "jsp");
  }

  /** The suffix is taken after the last dot. */
  lemma SuffixAfterLastDot()
    ensures Suffix("a.min.js") == "js"
  {
    assert Lower("a.min.js") == "a.min.js";
    SuffixEnds("a.min.js", "js");
  }

  /** ".json" is not ".js". */
  lemma JsonIsNotFrontEnd()
    ensures !IsFrontEndFile("script.json")
  {
    assert Lower("script.json") == "script.json";
    EndingGivesSuffix("script.json", "json");
  }

  /** The `build` test ignores case and nothing else. */
  lemma PrunedDirectoryExamples()
    ensures IsPrunedDirectory("Build") && IsPrunedDirectory("BUILD")
    ensures !IsPrunedDirectory("builds") && !IsPrunedDirectory("build ")
  {
    assert Lower("Build") == "build";
    assert Lower("BUILD") == "build";
  }

  /** Struts configurations are matched on the lower-cased name. */
  lemma StrutsConfigExamples()
    ensures IsStrutsConfigFile("Struts-Config.XML")
    ensures !IsStrutsConfigFile("struts.xml.bak")
  {
    var lower := Lower("Struts-Config.XML");
    assert lower == "struts-config.xml";
    assert StartsWith(lower, "struts");
    assert Lower("struts.xml.bak") == "struts.xml.bak";
  }
}
