/**
 The virtual file map handed to the live preview: a path such as `/App.js`
 mapped to the file's code and whether the preview hides it. A JavaScript
 object literal entry without a `hidden` property is an entry whose `hidden`
 is false.
 */
module Files {

  datatype FileEntry = FileEntry(code: string, hidden: bool)

  type FileMap = map<string, FileEntry>

  /** One assignment `files[path] = entry` of the source. */
  datatype Write = Write(path: string, entry: FileEntry)

  /** The paths a sequence of assignments writes to. */
  function Paths(ws: seq<Write>): set<string>
  {
    set i | 0 <= i < |ws| :: ws[i].path
  }

  /** No later assignment in `ws` writes to the path of `ws[i]`. */
  predicate LastWrite(ws: seq<Write>, i: nat)
    requires i < |ws|
  {
    forall j | i < j < |ws| :: ws[j].path != ws[i].path
  }

  /** No earlier assignment in `ws` writes to the path of `ws[i]`. */
  predicate FirstWrite(ws: seq<Write>, i: nat)
    requires i < |ws|
  {
    forall j | 0 <= j < i :: ws[j].path != ws[i].path
  }

  /** The assignments `ws` carried out on `f` in order. */
  function Apply(f: FileMap, ws: seq<Write>): FileMap
    decreases |ws|
  {
    if |ws| == 0 then f else Apply(f, ws[..|ws| - 1])[ws[|ws| - 1].path := ws[|ws| - 1].entry]
  }

  /** The assignments `ws`, each guarded by "only if the path is not there
      yet", carried out on `f` in order. */
  function ApplyIfAbsent(f: FileMap, ws: seq<Write>): FileMap
    decreases |ws|
  {
    if |ws| == 0 then f
    else
      var r0 := ApplyIfAbsent(f, ws[..|ws| - 1]);
      var w := ws[|ws| - 1];
      if w.path in r0 then r0 else r0[w.path := w.entry]
  }

  /** The keys after a run of assignments, guarded or not, are the old ones
      plus every written path. */
  lemma {:induction false} ApplyKeys(f: FileMap, ws: seq<Write>)
    ensures Apply(f, ws).Keys == f.Keys + Paths(ws)
    ensures ApplyIfAbsent(f, ws).Keys == f.Keys + Paths(ws)
    decreases |ws|
  {
    if |ws| > 0 {
      ApplyKeys(f, ws[..|ws| - 1]);
      PathsOfPrefix(ws);
    }
  }

  /** Every written path holds the value of its last assignment. */
  lemma {:induction false} ApplyLastWriteWins(f: FileMap, ws: seq<Write>, i: nat)
    requires i < |ws| && LastWrite(ws, i)
    ensures ws[i].path in Apply(f, ws) && Apply(f, ws)[ws[i].path] == ws[i].entry
    decreases |ws|
  {
    if i < |ws| - 1 {
      var init := ws[..|ws| - 1];
      assert init[i] == ws[i];
      assert LastWrite(init, i);
      ApplyLastWriteWins(f, init, i);
    }
  }

  /** A key no assignment writes keeps its value. */
  lemma {:induction false} ApplyKeepsUnwritten(f: FileMap, ws: seq<Write>, k: string)
    requires k in f && k !in Paths(ws)
    ensures k in Apply(f, ws) && Apply(f, ws)[k] == f[k]
    decreases |ws|
  {
    if |ws| > 0 {
      PathsOfPrefix(ws);
      ApplyKeepsUnwritten(f, ws[..|ws| - 1], k);
    }
  }

  /** The guarded assignments never replace a key that was already there. */
  lemma {:induction false} ApplyIfAbsentKeepsExisting(f: FileMap, ws: seq<Write>, k: string)
    requires k in f
    ensures k in ApplyIfAbsent(f, ws) && ApplyIfAbsent(f, ws)[k] == f[k]
    decreases |ws|
  {
    if |ws| > 0 {
      ApplyIfAbsentKeepsExisting(f, ws[..|ws| - 1], k);
    }
  }

  /** A new path holds the value of its first guarded assignment. */
  lemma {:induction false} ApplyIfAbsentFirstWriteWins(f: FileMap, ws: seq<Write>, i: nat)
    requires i < |ws| && ws[i].path !in f && FirstWrite(ws, i)
    ensures ws[i].path in ApplyIfAbsent(f, ws) && ApplyIfAbsent(f, ws)[ws[i].path] == ws[i].entry
    decreases |ws|
  {
    var init := ws[..|ws| - 1];
    if i < |ws| - 1 {
      assert init[i] == ws[i];
      assert FirstWrite(init, i);
      ApplyIfAbsentFirstWriteWins(f, init, i);
    } else {
      ApplyKeys(f, init);
      assert ws[i].path !in Paths(init);
    }
  }

  /** Assignments of visible entries to a map of visible entries leave every
      entry visible. */
  lemma {:induction false} ApplyKeepsVisible(f: FileMap, ws: seq<Write>)
    requires forall k | k in f :: !f[k].hidden
    requires forall i | 0 <= i < |ws| :: !ws[i].entry.hidden
    ensures forall k | k in Apply(f, ws) :: !Apply(f, ws)[k].hidden
    decreases |ws|
  {
    if |ws| > 0 {
      ApplyKeepsVisible(f, ws[..|ws| - 1]);
    }
  }

  /** When every assignment stores the same entry, every written path holds it. */
  lemma {:induction false} ApplySameEntry(f: FileMap, ws: seq<Write>, e: FileEntry, k: string)
    requires forall i | 0 <= i < |ws| :: ws[i].entry == e
    requires k in Paths(ws)
    ensures k in Apply(f, ws) && Apply(f, ws)[k] == e
    decreases |ws|
  {
    if ws[|ws| - 1].path != k {
      PathsOfPrefix(ws);
      ApplySameEntry(f, ws[..|ws| - 1], e, k);
    }
  }

  /** When every guarded assignment stores the same entry, every written path
      that was not there before holds it. */
  lemma {:induction false} ApplyIfAbsentSameEntry(f: FileMap, ws: seq<Write>, e: FileEntry, k: string)
    requires forall i | 0 <= i < |ws| :: ws[i].entry == e
    requires k in Paths(ws) && k !in f
    ensures k in ApplyIfAbsent(f, ws) && ApplyIfAbsent(f, ws)[k] == e
    decreases |ws|
  {
    var init := ws[..|ws| - 1];
    PathsOfPrefix(ws);
    if k in Paths(init) {
      ApplyIfAbsentSameEntry(f, init, e, k);
    } else {
      ApplyKeys(f, init);
    }
  }

  lemma PathsOfPrefix(ws: seq<Write>)
    requires |ws| > 0
    ensures Paths(ws) == Paths(ws[..|ws| - 1]) + {ws[|ws| - 1].path}
  {
    var init := ws[..|ws| - 1];
    assert forall i | 0 <= i < |init| :: init[i] == ws[i];
  }

  /** Two runs of assignments on the same map are one run of their
      concatenation. */
  lemma {:induction false} ApplyConcat(f: FileMap, a: seq<Write>, b: seq<Write>)
    ensures Apply(Apply(f, a), b) == Apply(f, a + b)
    decreases |b|
  {
    if |b| == 0 {
      assert a + b == a;
    } else {
      var init := b[..|b| - 1];
      ApplyConcat(f, a, init);
      assert (a + b)[..|a + b| - 1] == a + init;
      assert (a + b)[|a + b| - 1] == b[|b| - 1];
    }
  }
}
