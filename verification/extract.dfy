/**
 `extractFilesFromCode` (src/codeblock.jsx:37-82): the three marker passes
 that split a snippet into virtual files.

 The `// FILE:` pass and the `/* FILE: */` pass both write into the same map,
 the block pass second. Only when neither found anything does the implicit
 `// name.ext` pass run; its extension re-check (line 75) can reject nothing.
 */
module Extract {
  import opened Text
  import opened Patterns
  import opened Files

  function LineMatches(code: string): seq<Match>
  {
    Scan(LineFileMarker, code, 0)
  }

  function BlockMatches(code: string): seq<Match>
  {
    Scan(BlockFileMarker, code, 0)
  }

  function ImplicitMatches(code: string): seq<Match>
  {
    Scan(ImplicitFileMarker, code, 0)
  }

  /** The extension test of line 75: a dot followed by letters up to the end
      of the name. */
  predicate HasLetterExtension(name: string)
  {
    exists i | 0 <= i < |name| - 1 :: name[i] == '.' && forall j | i < j < |name| :: IsAsciiLetter(name[j])
  }

  /** The implicit matches that pass the extension test, in order. */
  function KeepWithExtension(ms: seq<Match>): (kept: seq<Match>)
    ensures |kept| <= |ms|
    ensures forall i | 0 <= i < |kept| :: kept[i] in ms && HasLetterExtension(kept[i].name)
    ensures forall i | 0 <= i < |ms| && HasLetterExtension(ms[i].name) :: ms[i] in kept
  {
    if |ms| == 0 then []
    else if HasLetterExtension(ms[0].name) then [ms[0]] + KeepWithExtension(ms[1..])
    else KeepWithExtension(ms[1..])
  }

  /** `extracted[`/${name.trim()}`] = { code: content.trim() }`. */
  function FileWrite(m: Match): Write
  {
    Write("/" + Trim(m.name), FileEntry(Trim(m.body), false))
  }

  function FileWrites(ms: seq<Match>): seq<Write>
  {
    seq(|ms|, i requires 0 <= i < |ms| => FileWrite(ms[i]))
  }

  /** The file map of a snippet: the explicit passes' result when either
      explicit pass matched, otherwise the implicit pass's result, otherwise
      the empty map. */
  function ExtractFiles(code: string): FileMap
  {
    var lines := LineMatches(code);
    var blocks := BlockMatches(code);
    var afterLines := Apply(map[], FileWrites(lines));
    var afterBlocks := Apply(afterLines, FileWrites(blocks));
    if |lines| > 0 || |blocks| > 0 then afterBlocks
    else
      var kept := KeepWithExtension(ImplicitMatches(code));
      var afterImplicit := Apply(afterBlocks, FileWrites(kept));
      if |kept| > 0 then afterImplicit else map[]
  }

  /** The matches whose writes make up the result, in write order. */
  function Selected(code: string): seq<Match>
  {
    if |LineMatches(code)| > 0 || |BlockMatches(code)| > 0 then LineMatches(code) + BlockMatches(code)
    else ImplicitMatches(code)
  }

  /** A key of the file map: `/` followed by a non-empty name without
      whitespace. */
  predicate IsFilePath(k: string)
  {
    |k| >= 2 && k[0] == '/' && AllInClass(k[1..], NonSpace)
  }

  // ----- facts about the passes -----

  /** Every name the three passes capture is non-empty and space-free. */
  predicate SpaceFreeNames(ms: seq<Match>)
  {
    forall i | 0 <= i < |ms| :: |ms[i].name| > 0 && AllInClass(ms[i].name, NonSpace)
  }

  lemma MarkerNamesSpaceFree(pat: Pattern, code: string)
    requires pat.IsFileMarker()
    ensures SpaceFreeNames(Scan(pat, code, 0))
  {
    var ms := Scan(pat, code, 0);
    forall i | 0 <= i < |ms|
      ensures |ms[i].name| > 0 && AllInClass(ms[i].name, NonSpace)
    {
      ScanNamesFit(pat, code, i);
      MarkerNameSpaceFree(pat, ms[i].name);
    }
  }

  /** The names the three marker expressions accept are non-empty and hold
      no whitespace. */
  lemma MarkerNameSpaceFree(pat: Pattern, n: string)
    requires pat.IsFileMarker() && NameFits(pat, n)
    ensures |n| > 0 && AllInClass(n, NonSpace)
  {
    if pat.ImplicitFileMarker? {
      assert forall t | 0 <= t < |n| :: InClass(n[t], PathChar);
    }
  }

  lemma SelectedNamesSpaceFree(code: string)
    ensures SpaceFreeNames(Selected(code))
  {
    var lines := LineMatches(code);
    var blocks := BlockMatches(code);
    MarkerNamesSpaceFree(LineFileMarker, code);
    MarkerNamesSpaceFree(BlockFileMarker, code);
    MarkerNamesSpaceFree(ImplicitFileMarker, code);
    SpaceFreeConcat(lines, blocks);
  }

  lemma SpaceFreeConcat(a: seq<Match>, b: seq<Match>)
    requires SpaceFreeNames(a) && SpaceFreeNames(b)
    ensures SpaceFreeNames(a + b)
  {
    forall i | 0 <= i < |a + b|
      ensures |(a + b)[i].name| > 0 && AllInClass((a + b)[i].name, NonSpace)
    {
      if i >= |a| {
        assert (a + b)[i] == b[i - |a|];
      }
    }
  }

  /** The key a space-free name is stored under is `/` and the name itself:
      the `trim()` on the name changes nothing. */
  lemma KeyOfSpaceFreeName(m: Match)
    requires |m.name| > 0 && AllInClass(m.name, NonSpace)
    ensures FileWrite(m).path == "/" + m.name && IsFilePath(FileWrite(m).path)
  {
    TrimSpaceFree(m.name);
    assert ("/" + m.name)[1..] == m.name;
  }

  lemma {:induction false} KeepAll(ms: seq<Match>)
    requires forall i | 0 <= i < |ms| :: HasLetterExtension(ms[i].name)
    ensures KeepWithExtension(ms) == ms
  {
    if |ms| > 0 {
      KeepAll(ms[1..]);
      assert [ms[0]] + ms[1..] == ms;
    }
  }

  /** The extension test of line 75 keeps every implicit match: the captured
      name already ends in a dot and letters. */
  lemma {:induction false} ExtensionCheckNeverRejects(code: string)
    ensures KeepWithExtension(ImplicitMatches(code)) == ImplicitMatches(code)
  {
    var ms := ImplicitMatches(code);
    forall i | 0 <= i < |ms|
      ensures HasLetterExtension(ms[i].name)
    {
      ScanNamesFit(ImplicitFileMarker, code, i);
      var n := ms[i].name;
      var d :| 1 <= d < |n| - 1 && n[d] == '.' && forall j | d < j < |n| :: IsAsciiLetter(n[j]);
      assert 0 <= d < |n| - 1;
    }
    KeepAll(ms);
  }

  lemma FileWritesConcat(a: seq<Match>, b: seq<Match>)
    ensures FileWrites(a + b) == FileWrites(a) + FileWrites(b)
  {
  }

  /** The result is the selected matches written in order into an empty map. */
  lemma ExtractIsSelectedWrites(code: string)
    ensures ExtractFiles(code) == Apply(map[], FileWrites(Selected(code)))
  {
    var lines := LineMatches(code);
    var blocks := BlockMatches(code);
    if |lines| > 0 || |blocks| > 0 {
      ApplyConcat(map[], FileWrites(lines), FileWrites(blocks));
      FileWritesConcat(lines, blocks);
    } else {
      ExtensionCheckNeverRejects(code);
      assert FileWrites(lines) == [] && FileWrites(blocks) == [];
    }
  }

  /** The paths written by space-free matches are `/` plus their names. */
  lemma PathsOfFileWrites(ms: seq<Match>)
    requires SpaceFreeNames(ms)
    ensures Paths(FileWrites(ms)) == set i | 0 <= i < |ms| :: "/" + ms[i].name
    ensures forall k | k in Paths(FileWrites(ms)) :: IsFilePath(k)
  {
    forall i | 0 <= i < |ms|
      ensures FileWrites(ms)[i].path == "/" + ms[i].name && IsFilePath(FileWrites(ms)[i].path)
    {
      KeyOfSpaceFreeName(ms[i]);
    }
  }

  /** The map the writes of space-free matches build from nothing: its keys
      are `/` plus the names, each a file path, and no entry is hidden. */
  lemma WrittenKeys(ms: seq<Match>)
    requires SpaceFreeNames(ms)
    ensures Apply(map[], FileWrites(ms)).Keys == set i | 0 <= i < |ms| :: "/" + ms[i].name
    ensures forall k | k in Apply(map[], FileWrites(ms)) :: IsFilePath(k) && !Apply(map[], FileWrites(ms))[k].hidden
  {
    ApplyKeys(map[], FileWrites(ms));
    PathsOfFileWrites(ms);
    ApplyKeepsVisible(map[], FileWrites(ms));
  }

  /** The index of the last match in `ms` that has the name of `ms[i]`. */
  function LastNamed(ms: seq<Match>, i: nat): (j: nat)
    requires i < |ms|
    ensures i <= j < |ms| && ms[j].name == ms[i].name
    ensures forall k | j < k < |ms| :: ms[k].name != ms[i].name
    decreases |ms| - i
  {
    if exists j | i < j < |ms| :: ms[j].name == ms[i].name then
      var j :| i < j < |ms| && ms[j].name == ms[i].name;
      LastNamed(ms, j)
    else i
  }

  /** Among the writes of space-free matches, the last match with a given name
      decides that file's entry. */
  lemma WrittenLastWins(ms: seq<Match>, i: nat)
    requires SpaceFreeNames(ms) && i < |ms|
    requires forall j | i < j < |ms| :: ms[j].name != ms[i].name
    ensures "/" + ms[i].name in Apply(map[], FileWrites(ms))
    ensures Apply(map[], FileWrites(ms))["/" + ms[i].name] == FileEntry(Trim(ms[i].body), false)
  {
    var ws := FileWrites(ms);
    KeyOfSpaceFreeName(ms[i]);
    assert LastWrite(ws, i) by {
      forall j | i < j < |ws|
        ensures ws[j].path != ws[i].path
      {
        KeyOfSpaceFreeName(ms[j]);
        assert ("/" + ms[j].name)[1..] == ms[j].name;
        assert ("/" + ms[i].name)[1..] == ms[i].name;
      }
    }
    ApplyLastWriteWins(map[], ws, i);
  }

  // ----- the properties of extraction -----

  /** The keys of the result are exactly `/` plus the names the selected pass
      or passes captured; each is `/` and a non-empty space-free name, and no
      extracted file is hidden. */
  lemma ExtractKeys(code: string)
    ensures ExtractFiles(code).Keys == set i | 0 <= i < |Selected(code)| :: "/" + Selected(code)[i].name
    ensures forall k | k in ExtractFiles(code) :: IsFilePath(k) && !ExtractFiles(code)[k].hidden
  {
    ExtractIsSelectedWrites(code);
    SelectedNamesSpaceFree(code);
    WrittenKeys(Selected(code));
  }

  /** Repeated paths overwrite in scan order: the file of the last selected
      match with a given name holds that match's trimmed body. */
  lemma LastMatchWins(code: string, i: nat)
    requires i < |Selected(code)|
    requires forall j | i < j < |Selected(code)| :: Selected(code)[j].name != Selected(code)[i].name
    ensures var m := Selected(code)[i];
            "/" + m.name in ExtractFiles(code) && ExtractFiles(code)["/" + m.name] == FileEntry(Trim(m.body), false)
  {
    ExtractIsSelectedWrites(code);
    SelectedNamesSpaceFree(code);
    WrittenLastWins(Selected(code), i);
  }

  /** Every file the passes name holds the trimmed body of the last selected
      match with that name. */
  lemma ExtractEntry(code: string, i: nat)
    requires i < |Selected(code)|
    ensures var sel := Selected(code);
            var k := "/" + sel[i].name;
            k in ExtractFiles(code) && ExtractFiles(code)[k] == FileEntry(Trim(sel[LastNamed(sel, i)].body), false)
  {
    var sel := Selected(code);
    LastMatchWins(code, LastNamed(sel, i));
  }

  /** A block-comment entry replaces a same-named line-comment entry: the file
      of a name the block pass captured holds the block pass's last body for
      it, whatever the line pass captured. */
  lemma BlockOverridesLine(code: string, i: nat)
    requires i < |BlockMatches(code)|
    requires forall j | i < j < |BlockMatches(code)| :: BlockMatches(code)[j].name != BlockMatches(code)[i].name
    ensures var m := BlockMatches(code)[i];
            "/" + m.name in ExtractFiles(code) && ExtractFiles(code)["/" + m.name] == FileEntry(Trim(m.body), false)
  {
    ExtractIsSelectedWrites(code);
    SelectedNamesSpaceFree(code);
    WrittenLastWinsInSuffix(LineMatches(code), BlockMatches(code), i);
  }

  /** The writes of `a + b`: the last match of `b` with a given name decides
      that file's entry, whatever `a` wrote. */
  lemma WrittenLastWinsInSuffix(a: seq<Match>, b: seq<Match>, i: nat)
    requires SpaceFreeNames(a + b) && i < |b|
    requires forall j | i < j < |b| :: b[j].name != b[i].name
    ensures "/" + b[i].name in Apply(map[], FileWrites(a + b))
    ensures Apply(map[], FileWrites(a + b))["/" + b[i].name] == FileEntry(Trim(b[i].body), false)
  {
    var sel := a + b;
    var k := |a| + i;
    assert sel[k] == b[i];
    assert forall j | k < j < |sel| :: sel[j] == b[j - |a|];
    WrittenLastWins(sel, k);
  }

  /** If any explicit marker matched, the result holds only explicit-marker
      files: the implicit pass does not contribute. */
  lemma ExplicitExcludesImplicit(code: string)
    requires |LineMatches(code)| > 0 || |BlockMatches(code)| > 0
    ensures ExtractFiles(code) == Apply(map[], FileWrites(LineMatches(code) + BlockMatches(code)))
    ensures ExtractFiles(code).Keys ==
            set i | 0 <= i < |LineMatches(code) + BlockMatches(code)| :: "/" + (LineMatches(code) + BlockMatches(code))[i].name
  {
    ExtractIsSelectedWrites(code);
    ExtractKeys(code);
  }

  /** The result is the empty map exactly when no pass matched anything. */
  lemma ExtractEmptyIff(code: string)
    ensures ExtractFiles(code) == map[] <==>
            |LineMatches(code)| == 0 && |BlockMatches(code)| == 0 && |ImplicitMatches(code)| == 0
  {
    ExtractKeys(code);
    var sel := Selected(code);
    if |sel| > 0 {
      assert "/" + sel[0].name in ExtractFiles(code);
    }
  }

  /** A body a `// FILE:` marker captured never contains `//`, optional
      whitespace and `FILE:`; a body a block `FILE:` marker captured never
      contains a block-comment opener, optional whitespace and `FILE:`. */
  lemma BodiesHoldNoMarker(pat: Pattern, code: string)
    requires pat == LineFileMarker || pat == BlockFileMarker
    ensures forall i | 0 <= i < |Scan(pat, code, 0)| ::
              var body := Scan(pat, code, 0)[i].body;
              forall j | 0 <= j <= |body| :: !StopsAt(pat, body, j)
  {
    var ms := Scan(pat, code, 0);
    forall i | 0 <= i < |ms|
      ensures forall j | 0 <= j <= |ms[i].body| :: !StopsAt(pat, ms[i].body, j)
    {
      BodyHoldsNoStop(pat, code, ms[i].start);
    }
  }

  /** Text before the first marker a pass matches is assigned to no file of
      that pass: no marker of that kind matches there. */
  lemma NoMarkerBeforeFirst(pat: Pattern, code: string, q: nat)
    requires |Scan(pat, code, 0)| > 0 && q < Scan(pat, code, 0)[0].start
    ensures MatchAt(pat, code, q).None?
  {
    ScanSkipsOnlyFailures(pat, code, 0, q);
  }

  /** Every body a pass captures starts after that pass's first marker. */
  lemma BodiesFollowFirstMarker(pat: Pattern, code: string, i: nat)
    requires pat.IsFileMarker() && i < |Scan(pat, code, 0)|
    ensures Scan(pat, code, 0)[0].start < Scan(pat, code, 0)[i].bodyStart
  {
    var ms := Scan(pat, code, 0);
    assert MatchAt(pat, code, ms[i].start) == Some(ms[i]);
  }
}
