# CodeBlock live-preview file selection, in Dafny

This project models the decision logic of the `CodeBlock` React component
(`src/codeblock.jsx`). The component renders a fenced code snippet and, for
JavaScript and React snippets, offers a live preview. The model covers how the
component turns the snippet into the virtual file map the preview receives:

- the language tag read from the `language-<tag>` class name, and the
  `isJavaScript`, `isReact` and `canRunInSandpack` flags (lines 10-19);
- the removal of one trailing newline from the snippet text (line 21);
- `extractFilesFromCode` (lines 37-82). It runs three marker passes:
  `// FILE: name`, `/* FILE: name */` and the implicit `// name.ext`, each
  followed by a lazily captured body;
- `getDefaultFiles` (lines 91-157):
  - a component snippet becomes `/App.js` plus a hidden `/index.js`, plus
    placeholder stylesheets;
  - a plain script becomes `/index.js` plus a hidden `/index.html`, plus
    stub modules for imported `.js` paths;
- the effect of lines 25-33, which stores the extracted files when there are
  any and the defaults otherwise. For a language that cannot run, it leaves
  the stored files unchanged.

The modules:

- `Text` holds `Option`, character classes and string primitives. `\s` is the exact
  ECMAScript WhiteSpace and LineTerminator set, the same set `trim()` removes.
  It also holds `includes` and `trim`.
- `Language` holds the tag and the flags.
- `Patterns` holds the five global regular expressions as one `Scan` over a
  `Pattern` datatype. It evaluates each expression the way a `while (exec)`
  loop does. At each start position it takes the match a backtracking engine
  finds first, and after a match it resumes at the match's end.
- `Files` holds the file map and the two ways of writing into it: plain
  assignment, and assignment only when the path is absent.
- `Extract` holds `extractFilesFromCode`.
- `Defaults` holds `getDefaultFiles`.
- `CodeBlock` holds the normalised snippet and the file selection of the
  effect.

How the regular expressions are read:

- **Line marker** (line 41): the name is the whole non-space run. The body
  starts after the last newline of the whitespace that follows the name.
- **Block marker** (line 42): the greedy name backs off until `*/` and a
  newline follow it. So the name is the longest prefix of the non-space run
  for which that holds.
- **Implicit marker** (line 70): the name is the whole run of characters other
  than `/` and whitespace, and it must be shaped `x.letters`.
- **Stylesheet import** (line 108): the path is the longest one on the line
  that ends in `.css` and is followed by a quote.
- **Script import** (line 141): `import` is tried before `require`. The last
  `from` on the line whose quoted `.js` path matches wins. Without one, the
  quote must follow the keyword's whitespace directly.

Behaviour of the code that its own comments do not suggest, which the model
follows as written:

- The comment on line 63 reads as if the explicit markers' files were returned
  as they were found. In fact the `// FILE:` and `/* FILE: */` passes write into
  the same map. The block pass writes second, so its entries replace
  same-named line entries.
- A script import of `./utils.js` gets the stub key `/./utils.js`. The key is
  `/` followed by the captured path as written; it is not normalised.
- The comment on line 74 describes the extension test of line 75 as a filter.
  It never rejects a name: the implicit expression only captures names that
  already end in a dot and letters.
- Line 56 resets the line expression's `lastIndex` rather than the block
  expression's. It does no harm: the block expression is still at index 0, and
  the line loop ended with its own index reset to 0 by the failed `exec`.

## Model

| member | source | states |
|---|---|---|
| Language.LanguageTag | src/codeblock.jsx:10-11 | The tag is empty exactly when no `language-` is followed by a word character. Otherwise it is the maximal word run after the first such `language-`. |
| Language.TagOfFirstMarker | src/codeblock.jsx:10-11 | Any class name whose first tagged `language-` carries the maximal word run `tag` is classified as `tag`. |
| Language.CanRunInSandpack | src/codeblock.jsx:16-19 | The preview is offered exactly for `js`, `jsx`, `javascript`, `tsx` and `react`. |
| Language.JsxIsReact | src/codeblock.jsx:17-18 | `jsx` is both a script tag and a component tag, so it is runnable and gets the component defaults. |
| CodeBlock.Normalize | src/codeblock.jsx:21 | The snippet loses at most one character, and keeps its prefix. It is unchanged exactly when it is empty or does not end in a newline. |
| CodeBlock.NormalizeUndoesNewline | src/codeblock.jsx:21 | Stripping the newline from `code + "\n"` gives back `code`. |
| CodeBlock.NormalizeRemovesOneNewline | src/codeblock.jsx:21 | Only one final newline is removed: `code + "\n\n"` becomes `code + "\n"`. |
| CodeBlock.NotRunnableKeepsFiles | src/codeblock.jsx:25 | For a language that cannot run, the stored files stay as they were. |
| CodeBlock.RunnableHasFiles | src/codeblock.jsx:25-33 | A runnable snippet always gets a non-empty file map. The result does not depend on the previously stored files. |
| CodeBlock.MarkersDecide | src/codeblock.jsx:26-32 | When any marker pass matched, the stored files are exactly the extracted files. When none matched, they are exactly the defaults for the language. |
| CodeBlock.DefaultsFollowTag | src/codeblock.jsx:26-32 | A marker-free component snippet gets `/App.js`. A marker-free plain script gets a visible `/index.js` holding the normalised snippet. |
| Text.Trim | src/codeblock.jsx:51 | `trim()` returns a contiguous piece of the text. Everything outside that piece is whitespace, and the piece neither starts nor ends with whitespace. |
| Patterns.LineHeader | src/codeblock.jsx:41 | A line-marker header starts with `//`, optional whitespace and `FILE:`. The name starts right after the whitespace that follows `FILE:` and is the whole non-space run there. Only whitespace lies between the name and the body, and the body starts right after the last newline of that whitespace. After the prefix, the header fails exactly when the run is empty or the whitespace after it holds no newline. |
| Patterns.BlockName | src/codeblock.jsx:42 | The block-marker name is the longest prefix of the non-space run after which whitespace, `*/`, whitespace and a newline follow. When no prefix qualifies, there is no match. |
| Patterns.BlockHeader | src/codeblock.jsx:42 | A block-marker header starts with the block-comment opener, optional whitespace and `FILE:`. The name starts right after the whitespace that follows `FILE:`. It is the longest prefix of the non-space run that whitespace, `*/`, whitespace and a newline follow, and the body starts after that newline. When that prefix exists the header matches; otherwise there is no match. |
| Patterns.ImplicitName | src/codeblock.jsx:70 | An implicit-marker name is the whole run of characters other than `/` and whitespace, shaped `x.letters`. Only whitespace lies between the name and the body, and the body starts right after a newline. It fails exactly when the run is not `x.letters` or the whitespace after it holds no newline. |
| Patterns.ImplicitHeader | src/codeblock.jsx:70 | An implicit header starts with `//`, and its name starts right after the whitespace that follows. The name is the whole run of characters other than `/` and whitespace, shaped `x.letters`, and the body starts right after a newline in the whitespace that follows. After `//`, it fails exactly when the run is not `x.letters` or that whitespace holds no newline. |
| Patterns.QuotedPathEnd | src/codeblock.jsx:108 | The greedy `.+` backs off to the last position on the line where the extension and a closing quote follow. The path up to there lies on one line, ends in the extension and is longer than it. When no position qualifies, there is no match. |
| Patterns.QuotedPath | src/codeblock.jsx:108 | A quoted path starts right after an opening quote. It runs to the last position on the line where the extension and a closing quote follow. After an opening quote, it fails exactly when no position on the line qualifies. |
| Patterns.CssImportHeader | src/codeblock.jsx:108 | A stylesheet import starts with `import` and captures a one-line path ending in `.css`. |
| Patterns.FromClause | src/codeblock.jsx:141 | The greedy `.*` before `from` backs off from the end of the line, so the clause uses the last `from` after which a quoted `.js` path matches. When no `from` works, the clause is skipped. |
| Patterns.JsImportHeader | src/codeblock.jsx:141 | A script import starts with `import` or `require` and captures a one-line path ending in `.js`. |
| Patterns.BodyEnd | src/codeblock.jsx:41-42 | The lazy body ends at the first position where the expression's lookahead holds, or at the end of the text. No earlier position satisfies the lookahead. |
| Patterns.MatchAt | src/codeblock.jsx:41-42 | A match lies in the text where its positions say, and its name fits the expression. A marker's body is lazy, and an import's body is empty. |
| Patterns.Scan | src/codeblock.jsx:49-53 | The `exec` loop reports matches in text order, without overlap. Each one is the expression's match at its start position. |
| Patterns.ScanCoversEveryMatch | src/codeblock.jsx:49-53 | Every position where the expression matches is either a reported start or lies inside a reported match. |
| Patterns.ScanSkipsOnlyFailures | src/codeblock.jsx:49-53 | No position before the first reported match, and no position at all when none is reported, is one where the expression matches. |
| Patterns.BodyHoldsNoStop | src/codeblock.jsx:41-42 | A body captured by a `// FILE:` or `/* FILE: */` marker never contains that marker's opener, optional whitespace and `FILE:`. |
| Files.ApplyKeys | src/codeblock.jsx:51 | After a run of assignments, guarded or not, the keys are the old keys plus every written path. |
| Files.ApplyLastWriteWins | src/codeblock.jsx:51 | A path holds the entry of the last assignment to it. |
| Files.ApplyKeepsUnwritten | src/codeblock.jsx:114 | A key that no assignment writes keeps its entry. |
| Files.ApplyIfAbsentKeepsExisting | src/codeblock.jsx:147-150 | The guarded assignment never replaces an entry that is already there. |
| Files.ApplyIfAbsentFirstWriteWins | src/codeblock.jsx:147-150 | A new path holds the entry of its first guarded assignment. |
| Files.ApplyConcat | src/codeblock.jsx:49-61 | Two loops of assignments into one map equal one loop over the concatenated assignments. |
| Extract.KeepWithExtension | src/codeblock.jsx:75 | A match is kept exactly when its name ends in a dot and letters: every kept match comes from the input and passes the test, and every input match that passes is kept. |
| Extract.ExtensionCheckNeverRejects | src/codeblock.jsx:75 | The extension test keeps every implicit match. |
| Extract.ExtractIsSelectedWrites | src/codeblock.jsx:37-82 | The result is the selected matches written in order into an empty map. The selected matches are the line matches followed by the block matches when either pass matched, and the implicit matches otherwise. |
| Extract.ExtractKeys | src/codeblock.jsx:49-81 | The keys are exactly `/` plus the selected names. Each key is `/` followed by a non-empty, space-free name, and no extracted file is hidden. |
| Extract.ExtractEntry | src/codeblock.jsx:49-79 | Every selected name's file holds the trimmed body of the last selected match with that name, for every name without a further hypothesis. |
| Extract.LastMatchWins | src/codeblock.jsx:49-79 | For each name, the file holds the trimmed body of the last selected match with that name. |
| Extract.BlockOverridesLine | src/codeblock.jsx:57-61 | A name captured by the block pass holds that pass's last body for it, whatever the line pass captured. |
| Extract.ExplicitExcludesImplicit | src/codeblock.jsx:63-66 | When either explicit pass matched, the result is built from explicit markers only, and its keys are their names. |
| Extract.ExtractEmptyIff | src/codeblock.jsx:63-81 | The result is empty exactly when none of the three passes matched. |
| Extract.BodiesHoldNoMarker | src/codeblock.jsx:41-42 | No body of the `// FILE:` pass or the `/* FILE: */` pass contains that pass's marker prefix. |
| Extract.NoMarkerBeforeFirst | src/codeblock.jsx:49-53 | Text before a pass's first match belongs to no file of that pass, because nothing matches there. |
| Extract.BodiesFollowFirstMarker | src/codeblock.jsx:49-53 | Every captured body begins after the pass's first marker. |
| Defaults.CssGuardIsImplied | src/codeblock.jsx:107-108 | A stylesheet import can only match when the snippet contains both `import` and `.css`, so the guard changes nothing. |
| Defaults.JsGuardIsImplied | src/codeblock.jsx:140-141 | A script import can only match when the snippet contains `import` or `require`, so the guard changes nothing. |
| Defaults.CssPaths | src/codeblock.jsx:111-115 | The stylesheet paths written are `/` plus each captured path, and each ends in `.css`. |
| Defaults.JsPaths | src/codeblock.jsx:144-152 | The script paths written are `/` plus each captured path, and each ends in `.js`. |
| Defaults.ReactAppFile | src/codeblock.jsx:95-99 | `/App.js` is visible. It holds the snippet verbatim exactly when the snippet contains `export default` or `ReactDOM.render`; otherwise it holds the snippet wrapped in the React import and `export default App;`. No stylesheet replaces it. |
| Defaults.ReactIndexFile | src/codeblock.jsx:100-103 | `/index.js` is the fixed, hidden entry module that renders `App`, whatever the snippet imports. |
| Defaults.ReactStylesheets | src/codeblock.jsx:107-116 | Every imported stylesheet gets a visible `/* CSS styles */` placeholder file. |
| Defaults.ReactKeys | src/codeblock.jsx:92-118 | The component defaults hold exactly `/App.js`, `/index.js` and one file per imported stylesheet. |
| Defaults.VanillaBaseFiles | src/codeblock.jsx:121-137 | `/index.js` holds the snippet and `/index.html` is the hidden page shell. No stub replaces either. |
| Defaults.VanillaStubs | src/codeblock.jsx:144-152 | Every imported script path other than the two base files gets the visible stub module. |
| Defaults.VanillaKeys | src/codeblock.jsx:119-156 | The plain-script defaults hold exactly `/index.js`, `/index.html` and one file per imported script path. |
| Defaults.DefaultFilesNonEmpty | src/codeblock.jsx:91-157 | The defaults are never empty. They always hold `/App.js` for a component and `/index.js` for a plain script. |

## Left out

- Rendering is not modelled: inline code, the highlighter, the preview widget, its theme, the buttons and icons (lines 159 on). None of it affects the file map.
- The clipboard copy and its two-second feedback timer (lines 84-88) are I/O and clock: not modelled. As written, a repeated click schedules another reset and does not cancel the pending one.
- React scheduling is not modelled: `useState`, the effect's dependency list and the preview toggle. `CodeBlock.SelectFiles` is the state the effect leaves after it runs once on the current props.
- `String(children)` is not modelled: `children` is taken to be the snippet text already. An absent `className` is the empty string, as `className || ''` makes it.
- Text is a sequence of Unicode code points. JavaScript strings are UTF-16 code units, so the model differs only for characters outside the Basic Multilingual Plane inside names or bodies.
- The insertion order of the keys of the file object is not modelled: the file map is an unordered map.
- Patterns.BodyHoldsNoStop: stated for the `// FILE:` and `/* FILE: */` expressions only. For the implicit `// name.ext` expression, the matching fact that no header starts inside the body is stated in text positions by `Patterns.MatchAt` (its lazy-body clause), not about the body as a separate string.
- Extract.BodiesHoldNoMarker: stated for the two explicit passes only, for the same reason.
- Patterns.CssImportHeader: its contract states what a stylesheet import that matched looks like, not that the match found is the engine's. The longest-path choice is stated by `Patterns.QuotedPathEnd`.
- Patterns.JsImportHeader: its contract states what a script import that matched looks like, not which keyword, `from` clause or path the engine picks. The last-`from` choice is stated by `Patterns.FromClause`.
- Patterns.MatchAt: its contract states what a match looks like, and that its body ends at the first lookahead. That the header is the one the engine picks rests on the header functions.
- Several imports on one line are modelled as the expressions' greedy `.*` and `.+` read them (the last `from`, the longest path). No separate property is stated about such lines.
