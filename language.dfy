/** Best-effort language tagging of a file path by its extension. */
module Language {
  import opened Wrappers
  import opened Text

  /** The extension table, in the order it is searched. */
  const ExtLang: seq<(string, string)> := [
    (".py", "python"),
    (".js", "javascript"),
    (".jsx", "javascript"),
    (".ts", "typescript"),
    (".tsx", "typescript"),
    (".json", "json"),
    (".md", "markdown"),
    (".yml", "yaml"),
    (".yaml", "yaml"),
    (".html", "html"),
    (".css", "css"),
    (".env", "env")
  ]

  /**
   * The table holds twelve extensions, each a dot followed by at least one
   * character, no two alike; ".js" and ".jsx" are javascript, ".ts" and
   * ".tsx" typescript, ".yml" and ".yaml" yaml.
   */
  lemma ExtLangTable()
    ensures |ExtLang| == 12
    ensures forall j :: 0 <= j < |ExtLang| ==> |ExtLang[j].0| >= 2 && ExtLang[j].0[0] == '.'
    ensures forall j, k :: 0 <= j < k < |ExtLang| ==> ExtLang[j].0 != ExtLang[k].0
    ensures ExtLang[1].1 == ExtLang[2].1 == "javascript"
    ensures ExtLang[3].1 == ExtLang[4].1 == "typescript"
    ensures ExtLang[7].1 == ExtLang[8].1 == "yaml"
  {
  }

  /** The index of the first entry of `table`, from `from` on, whose extension ends `path`. */
  function FirstMatch(table: seq<(string, string)>, path: string, from: nat): (r: Option<nat>)
    requires from <= |table|
    ensures r.Some? ==> from <= r.value < |table| && EndsWith(path, table[r.value].0)
    ensures r.Some? ==> forall j :: from <= j < r.value ==> !EndsWith(path, table[j].0)
    ensures r.None? <==> forall j :: from <= j < |table| ==> !EndsWith(path, table[j].0)
    decreases |table| - from
  {
    if from == |table| then None
    else if EndsWith(path, table[from].0) then Some(from)
    else FirstMatch(table, path, from + 1)
  }

  /**
   * The language of the first extension in table order that the lower-cased
   * path ends with, or None when no extension matches.
   */
  function DetectLanguage(path: string): (r: Option<string>)
    ensures r.None? <==> forall j :: 0 <= j < |ExtLang| ==> !EndsWith(Lower(path), ExtLang[j].0)
    ensures r.Some? ==>
      exists i :: 0 <= i < |ExtLang| && r.value == ExtLang[i].1 && EndsWith(Lower(path), ExtLang[i].0) &&
        forall j :: 0 <= j < i ==> !EndsWith(Lower(path), ExtLang[j].0)
  {
    match FirstMatch(ExtLang, Lower(path), 0)
    case Some(i) => Some(ExtLang[i].1)
    case None => None
  }

  /** The tag does not depend on the case of the path. */
  lemma DetectIgnoresCase(path: string)
    ensures DetectLanguage(Lower(path)) == DetectLanguage(path)
  {
    LowerIdempotent(path);
  }

  /** A path does not end with a suffix it differs from `k` characters before its end. */
  lemma Mismatch(s: string, suffix: string, k: nat)
    requires k < |suffix|
    requires |suffix| <= |s| ==> s[|s| - 1 - k] != suffix[|suffix| - 1 - k]
    ensures !EndsWith(s, suffix)
  {
  }

  /** Lower-casing a TSX component path. */
  lemma LowerAppTsx()
    ensures Lower("src/App.tsx") == "src/app.tsx"
  {
    var p := "src/App.tsx";
    var q := "src/app.tsx";
    forall i | 0 <= i < |p| ensures Lower(p)[i] == q[i] {
      assert Lower(p)[i] == LowerChar(p[i]);
    }
  }

  /** The first table entry a lower-case TSX path ends with is ".tsx". */
  lemma AppTsxFirstMatch()
    ensures FirstMatch(ExtLang, "src/app.tsx", 0) == Some(4)
  {
    var q := "src/app.tsx";
    Mismatch(q, ExtLang[0].0, 0);
    Mismatch(q, ExtLang[1].0, 0);
    Mismatch(q, ExtLang[2].0, 2);
    Mismatch(q, ExtLang[3].0, 0);
    assert EndsWith(q, ExtLang[4].0);
    assert FirstMatch(ExtLang, q, 4) == Some(4);
    assert FirstMatch(ExtLang, q, 3) == Some(4);
    assert FirstMatch(ExtLang, q, 2) == Some(4);
    assert FirstMatch(ExtLang, q, 1) == Some(4);
  }

  /** A TSX component is TypeScript, whatever the case of its name. */
  lemma DetectTsx()
    ensures DetectLanguage("src/App.tsx") == Some("typescript")
  {
    LowerAppTsx();
    AppTsxFirstMatch();
  }

  /** Lower-casing an upper-case Markdown file name. */
  lemma LowerReadme()
    ensures Lower("README.md") == "readme.md"
  {
    var p := "README.md";
    var q := "readme.md";
    forall i | 0 <= i < |p| ensures Lower(p)[i] == q[i] {
      assert Lower(p)[i] == LowerChar(p[i]);
    }
  }

  /** The first table entry a lower-case Markdown name ends with is ".md". */
  lemma ReadmeFirstMatch()
    ensures FirstMatch(ExtLang, "readme.md", 0) == Some(6)
  {
    var q := "readme.md";
    Mismatch(q, ExtLang[0].0, 0);
    Mismatch(q, ExtLang[1].0, 0);
    Mismatch(q, ExtLang[2].0, 0);
    Mismatch(q, ExtLang[3].0, 0);
    Mismatch(q, ExtLang[4].0, 0);
    Mismatch(q, ExtLang[5].0, 0);
    assert EndsWith(q, ExtLang[6].0);
    assert FirstMatch(ExtLang, q, 6) == Some(6);
    assert FirstMatch(ExtLang, q, 5) == Some(6);
    assert FirstMatch(ExtLang, q, 4) == Some(6);
    assert FirstMatch(ExtLang, q, 3) == Some(6);
    assert FirstMatch(ExtLang, q, 2) == Some(6);
    assert FirstMatch(ExtLang, q, 1) == Some(6);
  }

  /** A Markdown file is tagged even when its name is upper case. */
  lemma DetectMarkdown()
    ensures DetectLanguage("README.md") == Some("markdown")
  {
    LowerReadme();
    ReadmeFirstMatch();
  }

  /** A path without a listed extension is not classified. */
  lemma DetectMakefile()
    ensures DetectLanguage("Makefile") == None
  {
    var q := "makefile";
    assert Lower("Makefile") == q;
    forall j | 0 <= j < |ExtLang| ensures !EndsWith(q, ExtLang[j].0) {
      Mismatch(q, ExtLang[j].0, 0);
    }
  }
}
