/**
 Character classes and string primitives used by the regular expressions of
 the code block component: ECMAScript `\s`, `\w`, `.` and the `[^...]`
 classes, maximal runs of a class, literal matching at a position, `includes`
 and `trim`.
 */
module Text {
  /** The outcome of trying an expression or a search at one position: it
      fails (None) or yields a value. */
  datatype Option<+T> = None | Some(value: T)

  /** ECMAScript `\s`: the WhiteSpace and LineTerminator code points. The same
      set is what `String.prototype.trim` removes. */
  predicate IsSpace(c: char)
  {
    || c == ' ' || c == '\t' || c == '\n' || c == '\U{B}' || c == '\U{C}' || c == '\r'
    || c == '\U{A0}' || c == '\U{1680}' || ('\U{2000}' <= c <= '\U{200A}')
    || c == '\U{2028}' || c == '\U{2029}' || c == '\U{202F}' || c == '\U{205F}'
    || c == '\U{3000}' || c == '\U{FEFF}'
  }

  /** The characters that `.` (without the `s` flag) refuses to match. */
  predicate IsLineTerminator(c: char)
  {
    c == '\n' || c == '\r' || c == '\U{2028}' || c == '\U{2029}'
  }

  /** ECMAScript `\w`. */
  predicate IsWordChar(c: char)
  {
    ('a' <= c <= 'z') || ('A' <= c <= 'Z') || ('0' <= c <= '9') || c == '_'
  }

  /** `[a-zA-Z]`. */
  predicate IsAsciiLetter(c: char)
  {
    ('a' <= c <= 'z') || ('A' <= c <= 'Z')
  }

  predicate IsQuote(c: char)
  {
    c == '\'' || c == '"'
  }

  /** The single-character classes that occur under a `*` or `+` in the
      component's regular expressions. */
  datatype CharClass =
    | Space              // \s
    | NonSpace           // [^\s]
    | Word               // \w
    | PathChar           // [^\/\s]
    | NonLineTerminator  // .

  predicate InClass(c: char, k: CharClass)
  {
    match k
    case Space => IsSpace(c)
    case NonSpace => !IsSpace(c)
    case Word => IsWordChar(c)
    case PathChar => c != '/' && !IsSpace(c)
    case NonLineTerminator => !IsLineTerminator(c)
  }

  predicate AllInClass(s: string, k: CharClass)
  {
    forall t | 0 <= t < |s| :: InClass(s[t], k)
  }

  /** The end of the maximal run of class `k` that starts at `i`: what a greedy
      `k*` consumes from `i`. */
  function RunEnd(s: string, i: nat, k: CharClass): (j: nat)
    requires i <= |s|
    ensures i <= j <= |s|
    ensures forall t | i <= t < j :: InClass(s[t], k)
    ensures j == |s| || !InClass(s[j], k)
    decreases |s| - i
  {
    if i == |s| || !InClass(s[i], k) then i else RunEnd(s, i + 1, k)
  }

  /** The literal `lit` occurs in `s` at position `i`. */
  predicate HasAt(s: string, i: nat, lit: string)
  {
    i + |lit| <= |s| && s[i..i + |lit|] == lit
  }

  /** `s.includes(lit)`. */
  predicate Contains(s: string, lit: string)
  {
    exists i | 0 <= i <= |s| :: HasAt(s, i, lit)
  }

  predicate EndsWith(s: string, suffix: string)
  {
    |suffix| <= |s| && s[|s| - |suffix|..] == suffix
  }

  /** The position of the last '\n' in `s[i..j]`, if any. */
  function LastNewline(s: string, i: nat, j: nat): (r: Option<nat>)
    requires i <= j <= |s|
    ensures r.Some? ==> i <= r.value < j && s[r.value] == '\n'
    ensures r.Some? ==> forall t | r.value < t < j :: s[t] != '\n'
    ensures r.None? ==> forall t | i <= t < j :: s[t] != '\n'
    decreases j - i
  {
    if j == i then None
    else if s[j - 1] == '\n' then Some(j - 1)
    else LastNewline(s, i, j - 1)
  }

  /** The start of the maximal whitespace suffix of `s[lo..j]`, given that
      `s[j..]` is whitespace already. */
  function TrailStart(s: string, lo: nat, j: nat): (e: nat)
    requires lo <= j <= |s|
    requires forall t | j <= t < |s| :: IsSpace(s[t])
    ensures lo <= e <= j
    ensures forall t | e <= t < |s| :: IsSpace(s[t])
    ensures e == lo || !IsSpace(s[e - 1])
    decreases j - lo
  {
    if j == lo || !IsSpace(s[j - 1]) then j else TrailStart(s, lo, j - 1)
  }

  /** `r` is `s[i..i+|r|]` and everything of `s` around it is whitespace. */
  predicate TrimmedAt(s: string, r: string, i: nat)
  {
    && i + |r| <= |s|
    && s[i..i + |r|] == r
    && (forall t | 0 <= t < i :: IsSpace(s[t]))
    && (forall t | i + |r| <= t < |s| :: IsSpace(s[t]))
  }

  /** `s.trim()`: the text with all leading and trailing whitespace removed. */
  function Trim(s: string): (r: string)
    ensures exists i :: TrimmedAt(s, r, i)
    ensures |r| > 0 ==> !IsSpace(r[0]) && !IsSpace(r[|r| - 1])
  {
    var i := RunEnd(s, 0, Space);
    var j := TrailStart(s, i, |s|);
    assert TrimmedAt(s, s[i..j], i);
    s[i..j]
  }

  /** Trimming a text that holds no whitespace leaves it unchanged. */
  lemma TrimSpaceFree(s: string)
    requires AllInClass(s, NonSpace)
    ensures Trim(s) == s
  {
  }

  /** Trimming twice is trimming once. */
  lemma TrimIdempotent(s: string)
    ensures Trim(Trim(s)) == Trim(s)
  {
  }

  /** A run measured inside the slice `s[c..k]` is the run of `s` itself,
      unless it reaches the end of the slice. */
  lemma {:induction false} RunEndInSlice(s: string, c: nat, k: nat, i: nat, cls: CharClass)
    requires c <= k <= |s| && i <= k - c
    ensures RunEnd(s[c..k], i, cls) < k - c ==> c + RunEnd(s[c..k], i, cls) == RunEnd(s, c + i, cls)
    ensures RunEnd(s[c..k], i, cls) == k - c ==> k <= RunEnd(s, c + i, cls)
    decreases k - c - i
  {
    var t := s[c..k];
    if i < |t| && InClass(t[i], cls) {
      assert t[i] == s[c + i];
      RunEndInSlice(s, c, k, i + 1, cls);
    }
  }

  /** A literal found in a slice is found in the text at the shifted position. */
  lemma HasAtInSlice(s: string, c: nat, k: nat, j: nat, lit: string)
    requires c <= k <= |s| && HasAt(s[c..k], j, lit)
    ensures HasAt(s, c + j, lit)
  {
    var t := s[c..k];
    assert forall i | j <= i < j + |lit| :: t[i] == s[c + i];
  }
}
