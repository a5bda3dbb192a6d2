/**
 The language classifier of the code block: the tag carried by the
 `language-<tag>` class name and the three flags derived from it
 (src/codeblock.jsx:10-19).
 */
module Language {
  import opened Text

  const Marker := "language-"

  /** A `language-` prefix followed by at least one word character starts at `i`:
      the positions where the tag expression can match. */
  predicate TagStartsAt(className: string, i: nat)
  {
    HasAt(className, i, Marker) && i + |Marker| < |className| && IsWordChar(className[i + |Marker|])
  }

  /** `tag` is the maximal word-character run right after the prefix at `i`. */
  predicate TagIsRunAt(className: string, i: nat, tag: string)
  {
    var from := i + |Marker|;
    && from + |tag| <= |className|
    && className[from..from + |tag|] == tag
    && AllInClass(tag, Word)
    && (from + |tag| == |className| || !IsWordChar(className[from + |tag|]))
  }

  /** The tag found by searching from position `i` onwards. */
  function FindTag(className: string, i: nat): (tag: string)
    requires i <= |className|
    ensures tag == [] <==> forall j | i <= j <= |className| :: !TagStartsAt(className, j)
    ensures tag != [] ==>
      exists j: nat :: i <= j && TagStartsAt(className, j) && TagIsRunAt(className, j, tag)
                  && forall q | i <= q < j :: !TagStartsAt(className, q)
    decreases |className| - i
  {
    if i == |className| then []
    else if TagStartsAt(className, i) then TagAt(className, i)
    else FindTag(className, i + 1)
  }

  /** The word run that follows the prefix at `i`. */
  function TagAt(className: string, i: nat): (tag: string)
    requires TagStartsAt(className, i)
    ensures tag != [] && TagIsRunAt(className, i, tag)
  {
    var from := i + |Marker|;
    var tag := className[from..RunEnd(className, from, Word)];
    assert TagIsRunAt(className, i, tag);
    tag
  }

  /** The language tag of a class name (an absent class name is the empty one):
      the maximal word run after the first `language-` that a word character
      follows, or the empty string when there is none. */
  function LanguageTag(className: string): (tag: string)
    ensures tag == [] <==> forall j | 0 <= j <= |className| :: !TagStartsAt(className, j)
    ensures tag != [] ==>
      exists j: nat :: TagStartsAt(className, j) && TagIsRunAt(className, j, tag)
                  && forall q | 0 <= q < j :: !TagStartsAt(className, q)
  {
    FindTag(className, 0)
  }

  predicate IsJavaScript(tag: string)
  {
    tag == "js" || tag == "jsx" || tag == "javascript"
  }

  predicate IsReact(tag: string)
  {
    tag == "jsx" || tag == "tsx" || tag == "react"
  }

  /** The live preview is offered exactly for the five script tags. */
  function CanRunInSandpack(tag: string): (r: bool)
    ensures r <==> tag in {"js", "jsx", "javascript", "tsx", "react"}
  {
    IsJavaScript(tag) || IsReact(tag)
  }

  /** `jsx` is both a script and a component tag, so it is runnable and gets the
      component defaults. */
  lemma JsxIsReact()
    ensures IsJavaScript("jsx") && IsReact("jsx") && CanRunInSandpack("jsx")
  {
  }

  /** A class name whose first tagged `language-` carries `tag`, with `tag`
      followed by a non-word character or the end, classifies as `tag`. */
  lemma TagOfFirstMarker(className: string, i: nat, tag: string)
    requires TagStartsAt(className, i) && TagIsRunAt(className, i, tag)
    requires forall q | 0 <= q < i :: !TagStartsAt(className, q)
    ensures LanguageTag(className) == tag
  {
    FindTagFrom(className, 0, i, tag);
  }

  /** The search from `k` skips the positions before the first tagged prefix. */
  lemma {:induction false} FindTagFrom(className: string, k: nat, i: nat, tag: string)
    requires k <= i && TagStartsAt(className, i) && TagIsRunAt(className, i, tag)
    requires forall q | k <= q < i :: !TagStartsAt(className, q)
    ensures FindTag(className, k) == tag
    decreases i - k
  {
    if k < i {
      FindTagStep(className, k);
      FindTagFrom(className, k + 1, i, tag);
    } else {
      FindTagAtStart(className, i, tag);
    }
  }

  /** A position without a tagged prefix passes the search on. */
  lemma FindTagStep(className: string, k: nat)
    requires k < |className| && !TagStartsAt(className, k)
    ensures FindTag(className, k) == FindTag(className, k + 1)
  {
  }

  /** At a tagged prefix the search returns the run that follows it. */
  lemma FindTagAtStart(className: string, i: nat, tag: string)
    requires TagStartsAt(className, i) && TagIsRunAt(className, i, tag)
    ensures FindTag(className, i) == tag
  {
    var t := TagAt(className, i);
    RunIsUnique(className, i + |Marker|, tag, t);
  }

  /** Two maximal word runs from the same position are the same. */
  lemma RunIsUnique(className: string, from: nat, a: string, b: string)
    requires from + |a| <= |className| && className[from..from + |a|] == a && AllInClass(a, Word)
    requires from + |a| == |className| || !IsWordChar(className[from + |a|])
    requires from + |b| <= |className| && className[from..from + |b|] == b && AllInClass(b, Word)
    requires from + |b| == |className| || !IsWordChar(className[from + |b|])
    ensures a == b
  {
  }
}
