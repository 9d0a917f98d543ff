/** The last write to a place that is written again and again. */
module Latest {
  import opened Wrappers

  /** What the last of the writes that concern a place put there; `pick` says which do, and what they put. */
  function Last<W, T>(ws: seq<W>, pick: W -> Option<T>): Option<T> {
    if ws == [] then None
    else if pick(ws[|ws| - 1]).Some? then pick(ws[|ws| - 1])
    else Last(ws[..|ws| - 1], pick)
  }

  /** The last write, or what was there before. */
  function Or<T>(latest: Option<T>, before: Option<T>): Option<T> {
    if latest.Some? then latest else before
  }

  /** Later writes win over earlier ones. */
  lemma {:induction false} LastConcat<W, T>(a: seq<W>, b: seq<W>, pick: W -> Option<T>)
    ensures Last(a + b, pick) == Or(Last(b, pick), Last(a, pick))
    decreases |b|
  {
    if b == [] {
      assert a + b == a;
    } else {
      assert (a + b)[..|a + b| - 1] == a + b[..|b| - 1];
      LastConcat(a, b[..|b| - 1], pick);
    }
  }

  /** A write with none behind it that concerns the same place stays. */
  lemma {:induction false} LastAt<W, T>(ws: seq<W>, pick: W -> Option<T>, k: nat)
    requires k < |ws| && pick(ws[k]).Some? && forall j :: k < j < |ws| ==> pick(ws[j]).None?
    ensures Last(ws, pick) == pick(ws[k])
  {
    if k < |ws| - 1 {
      LastAt(ws[..|ws| - 1], pick, k);
    }
  }

  /** Nothing is there exactly if no write concerns the place. */
  lemma {:induction false} LastOfNone<W, T>(ws: seq<W>, pick: W -> Option<T>)
    ensures Last(ws, pick).None? <==> forall j :: 0 <= j < |ws| ==> pick(ws[j]).None?
  {
    if ws != [] {
      LastOfNone(ws[..|ws| - 1], pick);
    }
  }
}
