/**
 The five global regular expressions of src/codeblock.jsx, each evaluated the
 way `RegExp.prototype.exec` in a loop evaluates it: at every start position
 the match the backtracking engine finds first, and after a match the search
 resumes where that match ended.

 - LineFileMarker (line 41): `//`, optional whitespace, `FILE:`, optional
   whitespace, a non-space name, whitespace holding a newline; then a lazily
   matched body that stops where the next `//`-whitespace-`FILE:` begins or at
   the end of the text (the expression has no `m` flag).
 - BlockFileMarker (line 42): the same inside a block comment, whose closing
   delimiter follows the name; the body stops at the next block-comment
   opener followed by optional whitespace and `FILE:`.
 - ImplicitFileMarker (line 70): `//`, optional whitespace, a name made of
   characters other than `/` and whitespace and shaped `x.letters`,
   whitespace holding a newline; the body stops where the next such header
   begins.
 - CssImport (line 108): `import`, whitespace, a quote, a path ending in
   `.css` on one line, a quote.
 - JsImport (line 141): `import` or `require`, whitespace, an optional
   `... from` clause on the same line, a quote, a path ending in `.js`, a quote.
 */
module Patterns {
  import opened Text

  datatype Pattern = LineFileMarker | BlockFileMarker | ImplicitFileMarker | CssImport | JsImport
  {
    /** The three file-marker expressions capture a body after their header. */
    predicate IsFileMarker()
    {
      LineFileMarker? || BlockFileMarker? || ImplicitFileMarker?
    }
  }

  /** Where the header of a match puts its captured name and where the rest begins. */
  datatype Header = Header(nameStart: nat, nameEnd: nat, bodyStart: nat)

  /** One successful `exec`: the match starts at `start` and ends at `end`
      (the next `lastIndex`); `name` is the first capture, `body` the second
      (empty for the import expressions). */
  datatype Match = Match(start: nat, nameStart: nat, name: string, bodyStart: nat, body: string, end: nat)

  /** The match lies in `s` where its positions say. */
  predicate WellPlaced(m: Match, s: string)
  {
    && m.start < m.nameStart
    && m.nameStart + |m.name| <= m.bodyStart <= m.end <= |s|
    && s[m.nameStart..m.nameStart + |m.name|] == m.name
    && s[m.bodyStart..m.end] == m.body
  }

  /** `[a-zA-Z]+` closing a name after a dot: `[^\/\s]+\.[a-zA-Z]+` read on a
      run of path characters. */
  predicate DottedName(n: string)
  {
    exists i | 1 <= i < |n| - 1 :: n[i] == '.' && forall j | i < j < |n| :: IsAsciiLetter(n[j])
  }

  /** What each expression's first capture is known to look like. */
  predicate NameFits(pat: Pattern, n: string)
  {
    match pat
    case LineFileMarker => |n| > 0 && AllInClass(n, NonSpace)
    case BlockFileMarker => |n| > 0 && AllInClass(n, NonSpace)
    case ImplicitFileMarker => DottedName(n) && AllInClass(n, PathChar)
    case CssImport => |n| > |".css"| && EndsWith(n, ".css") && AllInClass(n, NonLineTerminator)
    case JsImport => |n| > |".js"| && EndsWith(n, ".js") && AllInClass(n, NonLineTerminator)
  }

  /** The header fits in `s` after `p` and its name fits the expression. */
  predicate HeaderFits(pat: Pattern, s: string, p: nat, h: Header)
  {
    && p < h.nameStart < h.nameEnd < h.bodyStart <= |s|
    && NameFits(pat, s[h.nameStart..h.nameEnd])
  }

  // ----- pieces shared by the headers -----

  /** `\s*\n` at `i`: greedy whitespace, then the newline, so the rest starts
      right after the last newline of the whitespace run; None if the run
      holds no newline. */
  function NewlineAfter(s: string, i: nat): (r: Option<nat>)
    requires i <= |s|
    ensures r.Some? ==> i < r.value <= |s| && s[r.value - 1] == '\n'
    ensures r.Some? ==> forall t | i <= t < r.value :: IsSpace(s[t])
    ensures r.Some? ==> forall t | r.value <= t < RunEnd(s, i, Space) :: s[t] != '\n'
    ensures r.None? ==> forall t | i <= t < RunEnd(s, i, Space) :: s[t] != '\n'
  {
    match LastNewline(s, i, RunEnd(s, i, Space))
    case None => None
    case Some(t) => Some(t + 1)
  }

  /** Between the name and the body lies whitespace only, and the body
      starts right after the last newline of the whitespace run that follows
      the name. */
  predicate NewlineRun(s: string, h: Header)
  {
    && h.nameEnd < h.bodyStart <= |s|
    && s[h.bodyStart - 1] == '\n'
    && (forall t | h.nameEnd <= t < h.bodyStart :: IsSpace(s[t]))
    && forall t | h.bodyStart <= t < RunEnd(s, h.nameEnd, Space) :: s[t] != '\n'
  }

  /** `//\s*FILE:` (the lookahead of line 41) or `/\*\s*FILE:` (line 42) at `k`. */
  predicate FilePrefixAt(s: string, k: nat, opener: string)
    requires k <= |s|
  {
    HasAt(s, k, opener) && HasAt(s, RunEnd(s, k + |opener|, Space), "FILE:")
  }

  /** The name start after `opener\s*FILE:\s*` at `p`, when that prefix is there. */
  function FileNameStart(s: string, p: nat, opener: string): (r: Option<nat>)
    requires p <= |s|
    ensures r.Some? ==> p + |opener| + 5 <= r.value <= |s|
    ensures r.Some? ==> r.value == |s| || !IsSpace(s[r.value])
    ensures r.Some? <==> FilePrefixAt(s, p, opener)
  {
    if !HasAt(s, p, opener) then None
    else
      var a := RunEnd(s, p + |opener|, Space);
      if !HasAt(s, a, "FILE:") then None
      else Some(RunEnd(s, a + 5, Space))
  }

  // ----- the headers -----

  /** Line 41 up to the body: the name is the whole non-space run (a shorter
      one would leave a non-space character where `\s*\n` must start). */
  function LineHeader(s: string, p: nat): (r: Option<Header>)
    requires p <= |s|
    ensures r.Some? ==> HeaderFits(LineFileMarker, s, p, r.value)
    ensures r.Some? ==> FilePrefixAt(s, p, "//")
    ensures r.Some? ==> FileNameStart(s, p, "//") == Some(r.value.nameStart)
    ensures r.Some? ==> r.value.nameEnd == RunEnd(s, r.value.nameStart, NonSpace)
    ensures r.Some? ==> NewlineRun(s, r.value)
    ensures r.None? && FilePrefixAt(s, p, "//") ==>
              var b := FileNameStart(s, p, "//").value;
              var c := RunEnd(s, b, NonSpace);
              c == b || forall t | c <= t < RunEnd(s, c, Space) :: s[t] != '\n'
  {
    match FileNameStart(s, p, "//")
    case None => None
    case Some(b) =>
      var c := RunEnd(s, b, NonSpace);
      if c == b then None
      else match NewlineAfter(s, c)
        case None => None
        case Some(d) =>
          assert AllInClass(s[b..c], NonSpace);
          Some(Header(b, c, d))
  }

  /** `\s*\*\/\s*\n` right after a candidate name ending at `e`. */
  function BlockClose(s: string, e: nat): (r: Option<nat>)
    requires e <= |s|
    ensures r.Some? ==> e < r.value <= |s|
  {
    var d := RunEnd(s, e, Space);
    if !HasAt(s, d, "*/") then None else NewlineAfter(s, d + 2)
  }

  /** `BlockClose` tried after every candidate name end of `s`. */
  function BlockCloseTable(s: string): (c: seq<Option<nat>>)
    ensures |c| == |s| + 1
    ensures forall t | 0 <= t <= |s| :: c[t] == BlockClose(s, t)
  {
    seq(|s| + 1, t requires 0 <= t <= |s| => BlockClose(s, t))
  }

  /** The largest `t` in `[lo, hi]` whose entry in `c` is a success: where a
      greedy expression that backs off one character at a time first
      succeeds. */
  function LastSuccess<T>(c: seq<Option<T>>, lo: nat, hi: nat): (r: Option<nat>)
    requires hi < |c|
    ensures r.Some? ==> lo <= r.value <= hi && c[r.value].Some?
    ensures r.Some? ==> forall t | r.value < t <= hi :: c[t].None?
    ensures r.None? ==> forall t | lo <= t <= hi :: c[t].None?
    decreases hi
  {
    if hi < lo then None
    else if c[hi].Some? then Some(hi)
    else if hi == lo then None
    else LastSuccess(c, lo, hi - 1)
  }

  /** The greedy `[^\s]+` of line 42 backs off one character at a time until
      the closing `*\/` and newline follow: the name is the longest prefix
      `s[b..e]` of the run for which `BlockClose` succeeds. */
  function BlockName(s: string, b: nat, e: nat): (r: Option<Header>)
    requires b <= e <= |s|
    ensures r.Some? ==> r.value.nameStart == b && b < r.value.nameEnd <= e && r.value.nameEnd < r.value.bodyStart <= |s|
    ensures r.Some? ==> BlockClose(s, r.value.nameEnd) == Some(r.value.bodyStart)
    ensures r.Some? ==> forall t | r.value.nameEnd < t <= e :: BlockClose(s, t).None?
    ensures r.None? ==> forall t | b < t <= e :: BlockClose(s, t).None?
  {
    var c := BlockCloseTable(s);
    match LastSuccess(c, b + 1, e)
    case None => None
    case Some(n) =>
      assert c[n] == BlockClose(s, n);
      Some(Header(b, n, c[n].value))
  }

  /** Line 42 up to the body. */
  function BlockHeader(s: string, p: nat): (r: Option<Header>)
    requires p <= |s|
    ensures r.Some? ==> HeaderFits(BlockFileMarker, s, p, r.value)
    ensures r.Some? ==> FilePrefixAt(s, p, "/*")
    ensures r.Some? ==> FileNameStart(s, p, "/*") == Some(r.value.nameStart)
    ensures r.Some? ==> BlockClose(s, r.value.nameEnd) == Some(r.value.bodyStart)
    ensures r.Some? ==> forall t | r.value.nameEnd < t <= RunEnd(s, r.value.nameStart, NonSpace) :: BlockClose(s, t).None?
    ensures r.None? && FilePrefixAt(s, p, "/*") ==>
              var b := FileNameStart(s, p, "/*").value;
              forall t | b < t <= RunEnd(s, b, NonSpace) :: BlockClose(s, t).None?
  {
    match FileNameStart(s, p, "/*")
    case None => None
    case Some(b) =>
      var c := RunEnd(s, b, NonSpace);
      var r := BlockName(s, b, c);
      assert r.Some? ==> AllInClass(s[r.value.nameStart..r.value.nameEnd], NonSpace);
      r
  }

  /** Line 70 up to the body. */
  function ImplicitHeader(s: string, p: nat): (r: Option<Header>)
    requires p <= |s|
    ensures r.Some? ==> HeaderFits(ImplicitFileMarker, s, p, r.value)
    ensures r.Some? ==> HasAt(s, p, "//") && NewlineRun(s, r.value)
    ensures r.Some? ==> r.value.nameStart == RunEnd(s, p + 2, Space)
    ensures r.Some? ==> r.value.nameEnd == RunEnd(s, r.value.nameStart, PathChar)
    ensures r.None? && HasAt(s, p, "//") ==>
              var a := RunEnd(s, p + 2, Space);
              || !DottedName(s[a..RunEnd(s, a, PathChar)])
              || forall t | RunEnd(s, a, PathChar) <= t < RunEnd(s, RunEnd(s, a, PathChar), Space) :: s[t] != '\n'
  {
    if !HasAt(s, p, "//") then None else ImplicitName(s, RunEnd(s, p + 2, Space))
  }

  /** The name of line 70 and the newline after it, from `a` on. The name must
      be the whole run of path characters: a shorter one leaves a path
      character where `\s*\n` must start. */
  function ImplicitName(s: string, a: nat): (r: Option<Header>)
    requires a <= |s|
    ensures r.Some? ==> r.value.nameStart == a < r.value.nameEnd < r.value.bodyStart <= |s|
    ensures r.Some? ==> NameFits(ImplicitFileMarker, s[a..r.value.nameEnd])
    ensures r.Some? ==> r.value.nameEnd == RunEnd(s, a, PathChar)
    ensures r.Some? ==> NewlineRun(s, r.value)
    ensures r.None? ==>
              || !DottedName(s[a..RunEnd(s, a, PathChar)])
              || forall t | RunEnd(s, a, PathChar) <= t < RunEnd(s, RunEnd(s, a, PathChar), Space) :: s[t] != '\n'
  {
    var c := RunEnd(s, a, PathChar);
    if !DottedName(s[a..c]) then None
    else match NewlineAfter(s, c)
      case None => None
      case Some(d) =>
        assert AllInClass(s[a..c], PathChar);
        Some(Header(a, c, d))
  }

  /** `['"](.+<ext>)['"]` at `a`: a quote, then the longest path on the line
      ending in `ext` that a quote follows. */
  function QuotedPath(s: string, a: nat, ext: string): (r: Option<Header>)
    requires a <= |s|
    requires |ext| > 0 && AllInClass(ext, NonLineTerminator)
    ensures r.Some? ==> a < r.value.nameStart < r.value.nameEnd < r.value.bodyStart <= |s|
    ensures r.Some? ==> var n := s[r.value.nameStart..r.value.nameEnd];
                        |n| > |ext| && EndsWith(n, ext) && AllInClass(n, NonLineTerminator)
    ensures r.Some? ==> r.value.nameStart == a + 1 && IsQuote(s[a]) && IsQuote(s[r.value.nameEnd])
    ensures r.Some? ==> LongestPath(s, a + 1, RunEnd(s, a + 1, NonLineTerminator), ext, r.value)
    ensures r.None? && a < |s| && IsQuote(s[a]) ==>
              forall y | a + 1 < y <= RunEnd(s, a + 1, NonLineTerminator) :: !ClosedAt(s, y, ext)
  {
    if a == |s| || !IsQuote(s[a]) then None
    else QuotedPathEnd(s, a + 1, RunEnd(s, a + 1, NonLineTerminator), ext)
  }

  /** The greedy `.+` of the path, backed off from `s[q..x]` one character at a
      time until `ext` and a quote follow it. */
  function QuotedPathEnd(s: string, q: nat, x: nat, ext: string): (r: Option<Header>)
    requires q <= x <= |s|
    requires forall t | q <= t < x :: !IsLineTerminator(s[t])
    requires |ext| > 0 && AllInClass(ext, NonLineTerminator)
    ensures r.Some? ==> LongestPath(s, q, x, ext, r.value)
    ensures r.None? ==> forall y | q < y <= x :: !ClosedAt(s, y, ext)
  {
    var c := ClosingTable(s, ext);
    match LastSuccess(c, q + 1, x)
    case None =>
      assert forall y | q < y <= x :: c[y].None?;
      None
    case Some(y) =>
      assert ClosedAt(s, y, ext) by {
        assert c[y] == (if ClosedAt(s, y, ext) then Some(y) else None);
      }
      assert forall t | y < t <= x :: !ClosedAt(s, t, ext) by {
        assert forall t | y < t <= x :: c[t].None?;
      }
      LongestPathAt(s, q, x, y, ext);
      Some(Header(q, y + |ext|, y + |ext| + 1))
  }

  /** `h` captures `s[q..]` up to the last position not after `x` where `ext`
      and a closing quote follow: a one-line name ending in `ext`, longer than
      it, with the quote right after it. */
  predicate LongestPath(s: string, q: nat, x: nat, ext: string, h: Header)
  {
    && h.nameStart == q < h.nameEnd < h.bodyStart <= |s|
    && h.bodyStart == h.nameEnd + 1
    && h.nameEnd - q > |ext|
    && EndsWith(s[q..h.nameEnd], ext)
    && AllInClass(s[q..h.nameEnd], NonLineTerminator)
    && h.nameEnd - |ext| <= x
    && ClosedAt(s, h.nameEnd - |ext|, ext)
    && forall y | h.nameEnd - |ext| < y <= x :: !ClosedAt(s, y, ext)
  }

  lemma LongestPathAt(s: string, q: nat, x: nat, y: nat, ext: string)
    requires q < y <= x <= |s| && ClosedAt(s, y, ext)
    requires forall t | y < t <= x :: !ClosedAt(s, t, ext)
    requires forall t | q <= t < x :: !IsLineTerminator(s[t])
    requires AllInClass(ext, NonLineTerminator)
    ensures LongestPath(s, q, x, ext, Header(q, y + |ext|, y + |ext| + 1))
  {
    QuotedName(s, q, y, ext);
  }

  /** Where `ext` and a closing quote follow, at every position of `s`. */
  function ClosingTable(s: string, ext: string): (c: seq<Option<nat>>)
    ensures |c| == |s| + 1
    ensures forall y | 0 <= y <= |s| :: c[y] == if ClosedAt(s, y, ext) then Some(y) else None
  {
    seq(|s| + 1, y requires 0 <= y <= |s| => if ClosedAt(s, y, ext) then Some(y) else None)
  }

  /** A path `s[q..y]` on one line followed by `ext` is a one-line name ending
      in `ext`. */
  lemma QuotedName(s: string, q: nat, y: nat, ext: string)
    requires q < y && HasAt(s, y, ext)
    requires forall t | q <= t < y :: !IsLineTerminator(s[t])
    requires AllInClass(ext, NonLineTerminator)
    ensures var n := s[q..y + |ext|];
            |n| > |ext| && EndsWith(n, ext) && AllInClass(n, NonLineTerminator)
  {
    var n := s[q..y + |ext|];
    assert n[|n| - |ext|..] == s[y..y + |ext|];
    assert forall t | y <= t < y + |ext| :: s[t] == ext[t - y];
  }

  /** `ext` at `y`, then a closing quote. */
  predicate ClosedAt(s: string, y: nat, ext: string)
  {
    HasAt(s, y, ext) && y + |ext| < |s| && IsQuote(s[y + |ext|])
  }

  /** Line 108. `\s+` must be maximal: a quote, not whitespace, has to follow it. */
  function CssImportHeader(s: string, p: nat): (r: Option<Header>)
    requires p <= |s|
    ensures r.Some? ==> HeaderFits(CssImport, s, p, r.value) && HasAt(s, p, "import")
  {
    if !HasAt(s, p, "import") then None
    else
      var a := RunEnd(s, p + 6, Space);
      if a == p + 6 then None else QuotedPath(s, a, ".css")
  }

  /** `from\s+` then the quoted path, at `f`. */
  function FromQuoted(s: string, f: nat): (r: Option<Header>)
    requires f <= |s|
    ensures r.Some? ==> f < r.value.nameStart < r.value.nameEnd < r.value.bodyStart <= |s|
    ensures r.Some? ==> NameFits(JsImport, s[r.value.nameStart..r.value.nameEnd])
  {
    if !HasAt(s, f, "from") then None
    else
      var g := RunEnd(s, f + 4, Space);
      if g == f + 4 then None else QuotedPath(s, g, ".js")
  }

  /** `FromQuoted` tried at every position of `s`. */
  function FromTable(s: string): (c: seq<Option<Header>>)
    ensures |c| == |s| + 1
    ensures forall g | 0 <= g <= |s| :: c[g] == FromQuoted(s, g)
  {
    seq(|s| + 1, g requires 0 <= g <= |s| => FromQuoted(s, g))
  }

  /** The optional `.*from\s+` clause starting at `u`: the greedy `.*` backs
      off from `f`, the end of the line, so the last `from` on the line after
      which the quoted path matches wins. */
  function FromClause(s: string, u: nat, f: nat): (r: Option<Header>)
    requires u <= f <= |s|
    ensures r.Some? ==> u < r.value.nameStart < r.value.nameEnd < r.value.bodyStart <= |s|
    ensures r.Some? ==> NameFits(JsImport, s[r.value.nameStart..r.value.nameEnd])
    ensures r.Some? ==> exists g | u <= g <= f :: FromQuoted(s, g) == r && forall g' | g < g' <= f :: FromQuoted(s, g').None?
    ensures r.None? ==> forall g | u <= g <= f :: FromQuoted(s, g).None?
  {
    var c := FromTable(s);
    match LastSuccess(c, u, f)
    case None => None
    case Some(g) =>
      assert c[g] == FromQuoted(s, g);
      c[g]
  }

  /** Line 141 after the keyword ending at `v`. The `\s+` is maximal: with a
      shorter run the remaining whitespace can start neither the quote nor a
      successful `from` clause that the maximal run did not already try. */
  function JsImportTail(s: string, v: nat): (r: Option<Header>)
    requires v <= |s|
    ensures r.Some? ==> v < r.value.nameStart < r.value.nameEnd < r.value.bodyStart <= |s|
    ensures r.Some? ==> NameFits(JsImport, s[r.value.nameStart..r.value.nameEnd])
  {
    var u := RunEnd(s, v, Space);
    if u == v then None
    else match FromClause(s, u, RunEnd(s, u, NonLineTerminator))
      case Some(h) => Some(h)
      case None => QuotedPath(s, u, ".js")
  }

  /** Line 141: `import` is tried before `require`. */
  function JsImportHeader(s: string, p: nat): (r: Option<Header>)
    requires p <= |s|
    ensures r.Some? ==> HeaderFits(JsImport, s, p, r.value)
    ensures r.Some? ==> HasAt(s, p, "import") || HasAt(s, p, "require")
  {
    if HasAt(s, p, "import") then JsImportTail(s, p + 6)
    else if HasAt(s, p, "require") then JsImportTail(s, p + 7)
    else None
  }

  function HeaderAt(pat: Pattern, s: string, p: nat): (r: Option<Header>)
    requires p <= |s|
    ensures r.Some? ==> HeaderFits(pat, s, p, r.value)
    ensures r.Some? && pat == CssImport ==> HasAt(s, p, "import")
    ensures r.Some? && pat == JsImport ==> HasAt(s, p, "import") || HasAt(s, p, "require")
  {
    match pat
    case LineFileMarker => LineHeader(s, p)
    case BlockFileMarker => BlockHeader(s, p)
    case ImplicitFileMarker => ImplicitHeader(s, p)
    case CssImport => CssImportHeader(s, p)
    case JsImport => JsImportHeader(s, p)
  }

  // ----- bodies -----

  /** The lookahead that ends a lazily matched body at `k` (the end of the text
      ends it too). */
  predicate StopsAt(pat: Pattern, s: string, k: nat)
    requires k <= |s|
  {
    match pat
    case LineFileMarker => FilePrefixAt(s, k, "//")
    case BlockFileMarker => FilePrefixAt(s, k, "/*")
    case ImplicitFileMarker => ImplicitHeader(s, k).Some?
    case _ => false
  }

  /** `[\s\S]*?` followed by the lookahead: the first position from `c` on
      where the lookahead holds or the text ends. */
  function BodyEnd(pat: Pattern, s: string, c: nat): (k: nat)
    requires c <= |s|
    ensures c <= k <= |s|
    ensures k == |s| || StopsAt(pat, s, k)
    ensures forall j | c <= j < k :: !StopsAt(pat, s, j)
    decreases |s| - c
  {
    if c == |s| || StopsAt(pat, s, c) then c else BodyEnd(pat, s, c + 1)
  }

  // ----- matching and scanning -----

  /** The match of `pat` that starts exactly at `p`, if any. */
  function MatchAt(pat: Pattern, s: string, p: nat): (r: Option<Match>)
    requires p <= |s|
    ensures r.Some? ==> r.value.start == p && WellPlaced(r.value, s) && NameFits(pat, r.value.name)
    ensures r.Some? && pat.IsFileMarker() ==> BodyIsLazy(pat, s, r.value)
    ensures r.Some? && !pat.IsFileMarker() ==> r.value.body == [] && r.value.end == r.value.bodyStart
    ensures r.Some? && pat == CssImport ==> HasAt(s, p, "import")
    ensures r.Some? && pat == JsImport ==> HasAt(s, p, "import") || HasAt(s, p, "require")
  {
    match HeaderAt(pat, s, p)
    case None => None
    case Some(h) => Some(MatchFrom(pat, s, p, h))
  }

  /** The body ends at the first position where the lookahead holds. */
  predicate BodyIsLazy(pat: Pattern, s: string, m: Match)
    requires m.bodyStart <= m.end <= |s|
  {
    && (m.end == |s| || StopsAt(pat, s, m.end))
    && forall j | m.bodyStart <= j < m.end :: !StopsAt(pat, s, j)
  }

  /** The match that a header found at `p` opens. */
  function MatchFrom(pat: Pattern, s: string, p: nat, h: Header): (m: Match)
    requires HeaderFits(pat, s, p, h)
    ensures m.start == p && WellPlaced(m, s) && NameFits(pat, m.name)
    ensures pat.IsFileMarker() ==> BodyIsLazy(pat, s, m)
    ensures !pat.IsFileMarker() ==> m.body == [] && m.end == m.bodyStart
  {
    var e := if pat.IsFileMarker() then BodyEnd(pat, s, h.bodyStart) else h.bodyStart;
    var name := s[h.nameStart..h.nameEnd];
    assert |name| == h.nameEnd - h.nameStart;
    Match(p, h.nameStart, name, h.bodyStart, s[h.bodyStart..e], e)
  }

  /** Position `q` lies inside one of the matches. */
  predicate Covered(ms: seq<Match>, q: nat)
  {
    exists i | 0 <= i < |ms| :: ms[i].start <= q < ms[i].end
  }

  /** The outcome of trying the expression at every start position of `s`,
      the end of the text included. */
  function Attempts(pat: Pattern, s: string): (t: seq<Option<Match>>)
    ensures |t| == |s| + 1
    ensures forall q | 0 <= q <= |s| :: t[q] == MatchAt(pat, s, q)
    ensures AttemptsFit(t)
  {
    var t := seq(|s| + 1, q requires 0 <= q <= |s| => MatchAt(pat, s, q));
    assert forall q | 0 <= q < |t| && t[q].Some? :: t[q].value.start == q < t[q].value.end < |t| by {
      forall q | 0 <= q < |t| && t[q].Some?
        ensures t[q].value.start == q < t[q].value.end < |t|
      {
        assert t[q] == MatchAt(pat, s, q);
      }
    }
    t
  }

  /** Every successful attempt starts where it was tried and ends after that,
      within the text. */
  predicate AttemptsFit(t: seq<Option<Match>>)
  {
    forall q | 0 <= q < |t| && t[q].Some? :: t[q].value.start == q < t[q].value.end < |t|
  }

  /** The `exec` loop over the attempts from `lastIndex == p`. */
  function ScanAttempts(t: seq<Option<Match>>, p: nat): (ms: seq<Match>)
    requires AttemptsFit(t) && p < |t|
    ensures forall i | 0 <= i < |ms| :: p <= ms[i].start < |t| && t[ms[i].start] == Some(ms[i])
    ensures forall i, j | 0 <= i < j < |ms| :: ms[i].end <= ms[j].start
    decreases |t| - p
  {
    match t[p]
    case None => if p + 1 == |t| then [] else ScanAttempts(t, p + 1)
    case Some(m) => [m] + ScanAttempts(t, m.end)
  }

  /** The `exec` loop from `lastIndex == p`: each match is the first one at or
      after the previous match's end, and matches come in text order without
      overlapping. */
  function Scan(pat: Pattern, s: string, p: nat): (ms: seq<Match>)
    requires p <= |s|
    ensures forall i | 0 <= i < |ms| :: p <= ms[i].start < |s| && MatchAt(pat, s, ms[i].start) == Some(ms[i])
    ensures forall i, j | 0 <= i < j < |ms| :: ms[i].end <= ms[j].start
  {
    var t := Attempts(pat, s);
    var ms := ScanAttempts(t, p);
    assert forall i | 0 <= i < |ms| :: ms[i].start < |s| by {
      forall i | 0 <= i < |ms| ensures ms[i].start < |s| {
        assert t[ms[i].start].value.end < |t|;
      }
    }
    ms
  }

  /** A failed attempt only moves the search on: every successful attempt is
      a reported start or lies inside a reported match. */
  lemma {:induction false} ScanAttemptsCovers(t: seq<Option<Match>>, p: nat, q: nat)
    requires AttemptsFit(t) && p <= q < |t| && t[q].Some?
    ensures Covered(ScanAttempts(t, p), q)
    decreases |t| - p
  {
    var ms := ScanAttempts(t, p);
    match t[p]
    case None =>
      assert p != q;
      ScanAttemptsCovers(t, p + 1, q);
    case Some(m) =>
      var rest := ScanAttempts(t, m.end);
      assert ms == [m] + rest;
      if q < m.end {
        assert ms[0].start <= q < ms[0].end;
      } else {
        ScanAttemptsCovers(t, m.end, q);
        var i :| 0 <= i < |rest| && rest[i].start <= q < rest[i].end;
        assert ms[i + 1].start <= q < ms[i + 1].end;
      }
  }

  /** Every position where the expression matches is a reported start or lies
      inside a reported match. */
  lemma ScanCoversEveryMatch(pat: Pattern, s: string, p: nat, q: nat)
    requires p <= q <= |s| && MatchAt(pat, s, q).Some?
    ensures Covered(Scan(pat, s, p), q)
  {
    ScanAttemptsCovers(Attempts(pat, s), p, q);
  }

  /** Every name a scan captures fits its expression. */
  lemma ScanNamesFit(pat: Pattern, s: string, i: nat)
    requires i < |Scan(pat, s, 0)|
    ensures NameFits(pat, Scan(pat, s, 0)[i].name)
    ensures WellPlaced(Scan(pat, s, 0)[i], s)
  {
    var m := Scan(pat, s, 0)[i];
    assert MatchAt(pat, s, m.start) == Some(m);
  }

  /** Nothing before the first reported match matches: the text in front of
      it belongs to no match at all. */
  lemma {:induction false} ScanSkipsOnlyFailures(pat: Pattern, s: string, p: nat, q: nat)
    requires p <= q <= |s|
    requires |Scan(pat, s, p)| == 0 || q < Scan(pat, s, p)[0].start
    ensures MatchAt(pat, s, q).None?
    decreases |s| - p
  {
    if MatchAt(pat, s, q).Some? {
      ScanCoversEveryMatch(pat, s, p, q);
      assert false;
    }
  }

  /** A `//`-`FILE:` or block-`FILE:` prefix found inside the slice `s[c..k]`
      is one of `s`. */
  lemma PrefixInSliceIsPrefix(s: string, c: nat, k: nat, j: nat, opener: string)
    requires c <= k <= |s| && j <= k - c
    requires FilePrefixAt(s[c..k], j, opener)
    ensures FilePrefixAt(s, c + j, opener)
  {
    var t := s[c..k];
    HasAtInSlice(s, c, k, j, opener);
    var a := RunEnd(t, j + |opener|, Space);
    RunEndInSlice(s, c, k, j + |opener|, Space);
    HasAtInSlice(s, c, k, a, "FILE:");
  }

  /** The body an explicit file marker captures never contains the marker's
      lookahead: for a line marker, no `//`, optional whitespace and `FILE:`
      inside it; for a block marker, no block-comment opener, optional
      whitespace and `FILE:`. */
  lemma BodyHoldsNoStop(pat: Pattern, s: string, p: nat)
    requires (pat == LineFileMarker || pat == BlockFileMarker) && p <= |s| && MatchAt(pat, s, p).Some?
    ensures var m := MatchAt(pat, s, p).value;
            forall j | 0 <= j <= |m.body| :: !StopsAt(pat, m.body, j)
  {
    var m := MatchAt(pat, s, p).value;
    forall j | 0 <= j <= |m.body|
      ensures !StopsAt(pat, m.body, j)
    {
      if j < |m.body| && StopsAt(pat, m.body, j) {
        StopInSliceIsStop(pat, s, m.bodyStart, m.end, j);
        assert false;
      }
    }
  }

  /** An explicit marker's lookahead that holds inside the slice `s[c..k]`
      holds in `s`. */
  lemma StopInSliceIsStop(pat: Pattern, s: string, c: nat, k: nat, j: nat)
    requires (pat == LineFileMarker || pat == BlockFileMarker) && c <= k <= |s| && j <= k - c
    requires StopsAt(pat, s[c..k], j)
    ensures StopsAt(pat, s, c + j)
  {
    if pat == LineFileMarker {
      PrefixInSliceIsPrefix(s, c, k, j, "//");
    } else {
      PrefixInSliceIsPrefix(s, c, k, j, "/*");
    }
  }
}
