/**
 The `CodeBlock` component's decisions (src/codeblock.jsx:9-33): the snippet
 text with its trailing newline removed, and the file map the effect stores
 for the live preview: extracted files when the snippet has markers, the
 defaults otherwise, and no change for a language that cannot run.
 */
module CodeBlock {
  import opened Language
  import opened Files
  import Extract
  import Defaults

  /** `String(children).replace(/\n$/, '')`: without the `m` flag `$` is the
      end of the text, so at most one final newline goes. */
  function Normalize(children: string): (code: string)
    ensures |children| - 1 <= |code| <= |children|
    ensures code == children[..|code|]
    ensures code == children <==> (|children| == 0 || children[|children| - 1] != '\n')
  {
    if |children| > 0 && children[|children| - 1] == '\n' then children[..|children| - 1] else children
  }

  /** Removing the newline undoes appending one. */
  lemma NormalizeUndoesNewline(code: string)
    ensures Normalize(code + "\n") == code
  {
    assert (code + "\n")[..|code|] == code;
  }

  /** Only one newline goes: a snippet ending in a blank line keeps the
      other. */
  lemma NormalizeRemovesOneNewline(code: string)
    ensures Normalize(code + "\n\n") == code + "\n"
  {
    assert (code + "\n\n")[..|code| + 1] == code + "\n";
  }

  /** The files of a runnable snippet: the extracted files when there are
      any, else the defaults for the language. */
  function FilesFor(code: string, isReact: bool): FileMap
  {
    var extracted := Extract.ExtractFiles(code);
    if |extracted| > 0 then extracted else Defaults.DefaultFiles(code, isReact)
  }

  /** The state the effect of lines 25-33 leaves: `previous` when the language
      cannot run, else the files for the normalised snippet. */
  function SelectFiles(previous: FileMap, className: string, children: string): FileMap
  {
    var tag := LanguageTag(className);
    if !CanRunInSandpack(tag) then previous else FilesFor(Normalize(children), IsReact(tag))
  }

  /** A snippet in a language that cannot run leaves the files as they were. */
  lemma NotRunnableKeepsFiles(previous: FileMap, className: string, children: string)
    requires !CanRunInSandpack(LanguageTag(className))
    ensures SelectFiles(previous, className, children) == previous
  {
  }

  /** A runnable snippet always gets at least one file, and the previous files
      play no part. */
  lemma RunnableHasFiles(previous: FileMap, className: string, children: string)
    requires CanRunInSandpack(LanguageTag(className))
    ensures |SelectFiles(previous, className, children)| > 0
    ensures forall other: FileMap :: SelectFiles(other, className, children) == SelectFiles(previous, className, children)
  {
    Defaults.DefaultFilesNonEmpty(Normalize(children), IsReact(LanguageTag(className)));
  }

  /** A snippet with a marker that matched gets exactly the extracted files;
      one without gets exactly the defaults. */
  lemma MarkersDecide(code: string, isReact: bool)
    ensures var anyMarker := |Extract.LineMatches(code)| > 0 || |Extract.BlockMatches(code)| > 0
                             || |Extract.ImplicitMatches(code)| > 0;
            && (anyMarker ==> FilesFor(code, isReact) == Extract.ExtractFiles(code))
            && (!anyMarker ==> FilesFor(code, isReact) == Defaults.DefaultFiles(code, isReact))
  {
    Extract.ExtractEmptyIff(code);
  }

  /** A marker-free snippet tagged as a component gets `/App.js`; one tagged
      as a plain script gets `/index.js` holding the snippet. */
  lemma DefaultsFollowTag(previous: FileMap, className: string, children: string)
    requires CanRunInSandpack(LanguageTag(className))
    requires Extract.ExtractFiles(Normalize(children)) == map[]
    ensures IsReact(LanguageTag(className)) ==> Defaults.AppPath in SelectFiles(previous, className, children)
    ensures !IsReact(LanguageTag(className)) ==>
              Defaults.IndexJsPath in SelectFiles(previous, className, children)
              && SelectFiles(previous, className, children)[Defaults.IndexJsPath] == FileEntry(Normalize(children), false)
  {
    var code := Normalize(children);
    if IsReact(LanguageTag(className)) {
      Defaults.ReactAppFile(code);
    } else {
      Defaults.VanillaBaseFiles(code);
    }
  }
}
