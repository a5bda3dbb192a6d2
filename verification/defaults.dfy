/**
 `getDefaultFiles` (src/codeblock.jsx:91-157): the file map used when a
 runnable snippet carries no file markers.

 A component snippet becomes `/App.js` (wrapped into a module unless it
 already exports or renders itself) next to a fixed, hidden `/index.js`,
 plus an empty stylesheet for every `import '....css'`. A plain script
 becomes `/index.js` next to a fixed, hidden `/index.html`, plus a stub for
 every imported or required `....js` path that is not a file already.
 */
module Defaults {
  import opened Text
  import opened Patterns
  import opened Files

  const AppPath := "/App.js"
  const IndexJsPath := "/index.js"
  const IndexHtmlPath := "/index.html"

  const AppPrefix := "import React from 'react';\n\n"
  const AppSuffix := "\n\nexport default App;"

  /** The hidden entry module of a component snippet (line 101). */
  const ReactIndex :=
    "import React from 'react';\nimport ReactDOM from 'react-dom';\nimport App from './App';\n\n"
    + "ReactDOM.render(<App />, document.getElementById('root'));"

  /** The page shell of a plain script (lines 124-134). */
  const IndexHtml :=
    "<!DOCTYPE html>\n<html>\n  <head>\n    <title>JavaScript Example</title>\n"
    + "    <meta charset=\"UTF-8\" />\n  </head>\n  <body>\n    <div id=\"app\"></div>\n"
    + "    <script src=\"index.js\"></script>\n  </body>\n</html>"

  /** The content of every stylesheet the snippet imports (line 114). */
  const CssPlaceholder := "/* CSS styles */"

  /** The content of every script module the snippet imports (line 149). */
  const JsStub := "// This file was referenced in your code\n// Add your implementation here"

  /** The snippet exports or renders its component itself. */
  predicate SelfContained(code: string)
  {
    Contains(code, "export default") || Contains(code, "ReactDOM.render")
  }

  /** The code of `/App.js` (lines 96-98). */
  function AppCode(code: string): string
  {
    if SelfContained(code) then code else AppPrefix + code + AppSuffix
  }

  function CssMatches(code: string): seq<Match>
  {
    Scan(CssImport, code, 0)
  }

  function JsMatches(code: string): seq<Match>
  {
    Scan(JsImport, code, 0)
  }

  /** One assignment of `contents` per captured path, keyed `/` and the path. */
  function ImportWrites(ms: seq<Match>, contents: string): seq<Write>
  {
    seq(|ms|, i requires 0 <= i < |ms| => Write("/" + ms[i].name, FileEntry(contents, false)))
  }

  /** The placeholder assignments of line 114, one per stylesheet import. */
  function CssWrites(code: string): seq<Write>
  {
    ImportWrites(CssMatches(code), CssPlaceholder)
  }

  /** The stub assignments of line 148, each guarded by line 147. */
  function JsWrites(code: string): seq<Write>
  {
    ImportWrites(JsMatches(code), JsStub)
  }

  function ReactBase(code: string): FileMap
  {
    map[AppPath := FileEntry(AppCode(code), false), IndexJsPath := FileEntry(ReactIndex, true)]
  }

  function VanillaBase(code: string): FileMap
  {
    map[IndexJsPath := FileEntry(code, false), IndexHtmlPath := FileEntry(IndexHtml, true)]
  }

  /** Lines 92-118. */
  function ReactFiles(code: string): FileMap
  {
    if Contains(code, "import") && Contains(code, ".css") then Apply(ReactBase(code), CssWrites(code))
    else ReactBase(code)
  }

  /** Lines 119-156. */
  function VanillaFiles(code: string): FileMap
  {
    if Contains(code, "import") || Contains(code, "require") then ApplyIfAbsent(VanillaBase(code), JsWrites(code))
    else VanillaBase(code)
  }

  /** `getDefaultFiles()` for a snippet classified as a component or not. */
  function DefaultFiles(code: string, isReact: bool): FileMap
  {
    if isReact then ReactFiles(code) else VanillaFiles(code)
  }

  // ----- the `includes` guards -----

  lemma ContainsAt(s: string, i: nat, lit: string)
    requires HasAt(s, i, lit)
    ensures Contains(s, lit)
  {
  }

  /** A text holding `n` somewhere holds every suffix of `n`. */
  lemma ContainsSuffix(s: string, a: nat, n: string, suffix: string)
    requires a + |n| <= |s| && s[a..a + |n|] == n && EndsWith(n, suffix)
    ensures Contains(s, suffix)
  {
    var at := a + |n| - |suffix|;
    assert s[at..at + |suffix|] == n[|n| - |suffix|..];
    ContainsAt(s, at, suffix);
  }

  /** A stylesheet import can only match in a snippet that mentions both
      `import` and `.css`: the guard of line 107 changes nothing. */
  lemma CssGuardIsImplied(code: string)
    requires |CssMatches(code)| > 0
    ensures Contains(code, "import") && Contains(code, ".css")
  {
    var m := CssMatches(code)[0];
    assert MatchAt(CssImport, code, m.start) == Some(m);
    ContainsAt(code, m.start, "import");
    ContainsSuffix(code, m.nameStart, m.name, ".css");
  }

  /** A script import can only match in a snippet that mentions `import` or
      `require`: the guard of line 140 changes nothing. */
  lemma JsGuardIsImplied(code: string)
    requires |JsMatches(code)| > 0
    ensures Contains(code, "import") || Contains(code, "require")
  {
    var m := JsMatches(code)[0];
    assert MatchAt(JsImport, code, m.start) == Some(m);
    if HasAt(code, m.start, "import") {
      ContainsAt(code, m.start, "import");
    } else {
      ContainsAt(code, m.start, "require");
    }
  }

  lemma ReactFilesUnguarded(code: string)
    ensures ReactFiles(code) == Apply(ReactBase(code), CssWrites(code))
  {
    if |CssMatches(code)| > 0 {
      CssGuardIsImplied(code);
    }
  }

  lemma VanillaFilesUnguarded(code: string)
    ensures VanillaFiles(code) == ApplyIfAbsent(VanillaBase(code), JsWrites(code))
  {
    if |JsMatches(code)| > 0 {
      JsGuardIsImplied(code);
    }
  }

  // ----- paths of the import writes -----

  /** The paths of import assignments are `/` and the captured paths; when
      every captured path ends in `ext`, so does every written path. */
  lemma ImportPaths(ms: seq<Match>, contents: string, ext: string)
    requires forall i | 0 <= i < |ms| :: EndsWith(ms[i].name, ext)
    ensures Paths(ImportWrites(ms, contents)) == set i | 0 <= i < |ms| :: "/" + ms[i].name
    ensures forall k | k in Paths(ImportWrites(ms, contents)) :: EndsWith(k, ext)
  {
    var ws := ImportWrites(ms, contents);
    forall i | 0 <= i < |ws|
      ensures ws[i].path == "/" + ms[i].name && EndsWith(ws[i].path, ext)
    {
      EndsWithAfterSlash(ms[i].name, ext);
    }
    assert Paths(ws) == set i | 0 <= i < |ms| :: "/" + ms[i].name by {
      forall k | k in Paths(ws) ensures k in set i | 0 <= i < |ms| :: "/" + ms[i].name {
        var i :| 0 <= i < |ws| && ws[i].path == k;
      }
    }
  }

  /** The stylesheet paths written: `/` and each captured `....css` path. */
  lemma CssPaths(code: string)
    ensures Paths(CssWrites(code)) == set i | 0 <= i < |CssMatches(code)| :: "/" + CssMatches(code)[i].name
    ensures forall k | k in Paths(CssWrites(code)) :: EndsWith(k, ".css")
  {
    var ms := CssMatches(code);
    forall i | 0 <= i < |ms|
      ensures EndsWith(ms[i].name, ".css")
    {
      ScanNamesFit(CssImport, code, i);
    }
    ImportPaths(ms, CssPlaceholder, ".css");
  }

  /** The script paths written: `/` and each captured `....js` path. */
  lemma JsPaths(code: string)
    ensures Paths(JsWrites(code)) == set i | 0 <= i < |JsMatches(code)| :: "/" + JsMatches(code)[i].name
    ensures forall k | k in Paths(JsWrites(code)) :: EndsWith(k, ".js")
  {
    var ms := JsMatches(code);
    forall i | 0 <= i < |ms|
      ensures EndsWith(ms[i].name, ".js")
    {
      ScanNamesFit(JsImport, code, i);
    }
    ImportPaths(ms, JsStub, ".js");
  }

  lemma EndsWithAfterSlash(n: string, suffix: string)
    requires EndsWith(n, suffix)
    ensures EndsWith("/" + n, suffix)
  {
    assert ("/" + n)[|"/" + n| - |suffix|..] == n[|n| - |suffix|..];
  }

  // ----- the component defaults -----

  /** `/App.js` holds the snippet verbatim exactly when it exports or renders
      itself; otherwise it holds the snippet between the React import and
      `export default App;`. It is never hidden and no stylesheet replaces it. */
  lemma ReactAppFile(code: string)
    ensures AppPath in ReactFiles(code) && !ReactFiles(code)[AppPath].hidden
    ensures ReactFiles(code)[AppPath].code == code <==> SelfContained(code)
    ensures !SelfContained(code) ==> ReactFiles(code)[AppPath].code == AppPrefix + code + AppSuffix
  {
    ReactFilesUnguarded(code);
    CssPaths(code);
    assert !EndsWith(AppPath, ".css");
    ApplyKeepsUnwritten(ReactBase(code), CssWrites(code), AppPath);
    if !SelfContained(code) {
      assert |AppPrefix + code + AppSuffix| > |code|;
    }
  }

  /** `/index.js` is the fixed, hidden entry module, whatever the snippet
      imports. */
  lemma ReactIndexFile(code: string)
    ensures IndexJsPath in ReactFiles(code) && ReactFiles(code)[IndexJsPath] == FileEntry(ReactIndex, true)
  {
    ReactFilesUnguarded(code);
    CssPaths(code);
    assert !EndsWith(IndexJsPath, ".css");
    ApplyKeepsUnwritten(ReactBase(code), CssWrites(code), IndexJsPath);
  }

  /** Every imported stylesheet gets a visible placeholder file. */
  lemma ReactStylesheets(code: string, i: nat)
    requires i < |CssMatches(code)|
    ensures var k := "/" + CssMatches(code)[i].name;
            k in ReactFiles(code) && ReactFiles(code)[k] == FileEntry(CssPlaceholder, false)
  {
    ReactFilesUnguarded(code);
    var ws := CssWrites(code);
    assert ws[i].path in Paths(ws);
    ApplySameEntry(ReactBase(code), ws, FileEntry(CssPlaceholder, false), ws[i].path);
  }

  /** The component defaults hold `/App.js`, `/index.js` and one file per
      imported stylesheet, and nothing else. */
  lemma ReactKeys(code: string)
    ensures ReactFiles(code).Keys ==
            {AppPath, IndexJsPath} + set i | 0 <= i < |CssMatches(code)| :: "/" + CssMatches(code)[i].name
  {
    ReactFilesUnguarded(code);
    CssPaths(code);
    ApplyKeys(ReactBase(code), CssWrites(code));
  }

  // ----- the plain-script defaults -----

  /** `/index.js` holds the snippet and `/index.html` the hidden page shell,
      whatever the snippet imports: a stub never replaces either. */
  lemma VanillaBaseFiles(code: string)
    ensures IndexJsPath in VanillaFiles(code) && VanillaFiles(code)[IndexJsPath] == FileEntry(code, false)
    ensures IndexHtmlPath in VanillaFiles(code) && VanillaFiles(code)[IndexHtmlPath] == FileEntry(IndexHtml, true)
  {
    VanillaFilesUnguarded(code);
    ApplyIfAbsentKeepsExisting(VanillaBase(code), JsWrites(code), IndexJsPath);
    ApplyIfAbsentKeepsExisting(VanillaBase(code), JsWrites(code), IndexHtmlPath);
  }

  /** Every imported script path other than the two base files gets a visible
      stub. */
  lemma VanillaStubs(code: string, i: nat)
    requires i < |JsMatches(code)|
    requires "/" + JsMatches(code)[i].name !in VanillaBase(code)
    ensures var k := "/" + JsMatches(code)[i].name;
            k in VanillaFiles(code) && VanillaFiles(code)[k] == FileEntry(JsStub, false)
  {
    VanillaFilesUnguarded(code);
    var ws := JsWrites(code);
    assert ws[i].path in Paths(ws);
    ApplyIfAbsentSameEntry(VanillaBase(code), ws, FileEntry(JsStub, false), ws[i].path);
  }

  /** The plain-script defaults hold `/index.js`, `/index.html` and one file
      per imported script path, and nothing else. */
  lemma VanillaKeys(code: string)
    ensures VanillaFiles(code).Keys ==
            {IndexJsPath, IndexHtmlPath} + set i | 0 <= i < |JsMatches(code)| :: "/" + JsMatches(code)[i].name
  {
    VanillaFilesUnguarded(code);
    JsPaths(code);
    ApplyKeys(VanillaBase(code), JsWrites(code));
  }

  /** The defaults are never empty. */
  lemma DefaultFilesNonEmpty(code: string, isReact: bool)
    ensures |DefaultFiles(code, isReact)| > 0
    ensures isReact ==> AppPath in DefaultFiles(code, isReact)
    ensures !isReact ==> IndexJsPath in DefaultFiles(code, isReact)
  {
    if isReact {
      ReactAppFile(code);
    } else {
      VanillaBaseFiles(code);
    }
  }
}
