/** What is on the disk after a run, when names clash and when they do not. */
module Saving {
  import opened Wrappers
  import opened Bytes
  import opened Files
  import opened Latest
  import Path

  /** Where each file goes; only a refused one goes nowhere. */
  function Places(disk: Disk, ws: seq<Written>, p: Policy): (places: seq<Option<text>>)
    ensures |places| == |ws|
  {
    if ws == [] then []
    else
      var before := ws[..|ws| - 1];
      Places(disk, before, p) + [Target(SaveAll(disk, before, p), ws[|ws| - 1].path, p)]
  }

  // ----- Numbering: nothing is ever lost -----

  const NUMBERED := Policy(false, true)

  /** A path that is free is taken, and otherwise the one with the least number that is. */
  lemma TargetIsFree(disk: Disk, path: text)
    ensures var t := Target(disk, path, NUMBERED);
      && t.Some? && t.value !in disk && (path !in disk ==> t.value == path)
      && (path in disk ==> exists n ::
            1 <= n <= |disk| + 1 && t.value == Path.Numbered(path, n) && forall k :: 1 <= k < n ==> Path.Numbered(path, k) in disk)
  {
    hide Path.Numbered, Path.FreeFrom;
    var n := Path.FreeNumber(path, disk.Keys);
    assert Path.Numbered(path, n) !in disk.Keys;
    assert |disk.Keys| == |disk|;
    forall k | 1 <= k < n
      ensures Path.Numbered(path, k) in disk
    {
      Path.FreeIsLeast(path, disk.Keys, 1, k);
    }
  }

  lemma OneMoreFile(disk: Disk, path: text, data: seq<byte>)
    requires path !in disk
    ensures |disk[path := data]| == |disk| + 1
  {
    var after := disk[path := data];
    assert after.Keys == disk.Keys + {path};
    assert |after| == |after.Keys| && |disk| == |disk.Keys|;
  }

  /** A file that is overwritten holds its data, or nothing if there is none, and no other file changes. */
  lemma Overwritten(disk: Disk, w: Written, p: Policy)
    requires p.overwrite
    ensures Save(disk, w, p) == disk[w.path := if w.file.data.Some? then w.file.data.value else []]
  {
  }

  /** All places are different, and new. */
  predicate Distinct(disk: Disk, places: seq<Option<text>>) {
    && (forall i :: 0 <= i < |places| ==> places[i].Some? && places[i].value !in disk)
    && (forall i, j :: 0 <= i < j < |places| ==> places[i] != places[j])
  }

  lemma OneMorePlace(disk: Disk, places: seq<Option<text>>, t: text)
    requires Distinct(disk, places) && t !in disk && Some(t) !in places
    ensures Distinct(disk, places + [Some(t)])
  {
  }

  /**
   * When taken names get a number, every file gets a place of its own that was free before, holds its data
   * there, and no file that was there is touched.
   */
  lemma {:induction false} NothingLost(disk: Disk, ws: seq<Written>)
    ensures var places, after := Places(disk, ws, NUMBERED), SaveAll(disk, ws, NUMBERED);
      && Distinct(disk, places)
      && (forall i :: 0 <= i < |ws| ==> places[i].value in after && after[places[i].value] == Contents(ws[i].file))
      && (forall path :: path in disk ==> path in after && after[path] == disk[path])
      && |after| == |disk| + |ws|
    decreases |ws|
  {
    hide Target, Contents;
    if ws != [] {
      var before, w := ws[..|ws| - 1], ws[|ws| - 1];
      NothingLost(disk, before);
      var middle := SaveAll(disk, before, NUMBERED);
      TargetIsFree(middle, w.path);
      var t := Target(middle, w.path, NUMBERED).value;
      assert SaveAll(disk, ws, NUMBERED) == middle[t := Contents(w.file)];
      OneMoreFile(middle, t, Contents(w.file));
      OneMorePlace(disk, Places(disk, before, NUMBERED), t);
    }
  }

  // ----- Overwriting: the last file with a path stays -----

  function At(path: text): Written -> Option<seq<byte>> {
    (w: Written) => if w.path == path then Some(Contents(w.file)) else None
  }

  function Lookup(disk: Disk, path: text): Option<seq<byte>> {
    if path in disk then Some(disk[path]) else None
  }

  /** When files are overwritten, the last one written to a path is what is there. */
  lemma {:induction false} LastStays(disk: Disk, ws: seq<Written>, p: Policy, path: text)
    requires p.overwrite
    ensures Lookup(SaveAll(disk, ws, p), path) == Or(Last(ws, At(path)), Lookup(disk, path))
    decreases |ws|
  {
    hide Contents;
    if ws != [] {
      LastStays(disk, ws[..|ws| - 1], p, path);
    }
  }

  // ----- Refusing: the first file with a path stays -----

  /** The first file written to a path. */
  function First(ws: seq<Written>, path: text): Option<seq<byte>> {
    if ws == [] then None else Or(At(path)(ws[0]), First(ws[1..], path))
  }

  lemma {:induction false} FirstOneMore(ws: seq<Written>, w: Written, path: text)
    ensures First(ws + [w], path) == Or(First(ws, path), At(path)(w))
  {
    hide Contents;
    if ws == [] {
      assert ws + [w] == [w] && [w][1..] == [];
    } else {
      assert (ws + [w])[1..] == ws[1..] + [w];
      FirstOneMore(ws[1..], w, path);
    }
  }

  /** When files are neither overwritten nor numbered, what is there stays, and after it the first one written. */
  lemma {:induction false} FirstStays(disk: Disk, ws: seq<Written>, path: text)
    ensures Lookup(SaveAll(disk, ws, Policy(false, false)), path) == Or(Lookup(disk, path), First(ws, path))
    decreases |ws|
  {
    hide Contents;
    if ws != [] {
      var before, w := ws[..|ws| - 1], ws[|ws| - 1];
      FirstStays(disk, before, path);
      FirstOneMore(before, w, path);
      assert ws == before + [w];
    }
  }
}
