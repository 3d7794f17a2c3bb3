/** The undo/redo timeline: `past` and `future` stacks of document
    snapshots around the live document, each capped at fifty entries. */
module History {
  import opened Types

  const HistoryLimit: nat := 50

  /** A deep copy of the document, as `pushHistory` takes it. */
  datatype Snapshot = Snapshot(nodes: seq<Node>, edges: seq<Edge>)

  datatype Timeline = Timeline(present: Snapshot, past: seq<Snapshot>, future: seq<Snapshot>)

  /** Both stacks within the limit, as every operation below leaves them. */
  predicate Bounded(t: Timeline) {
    |t.past| <= HistoryLimit && |t.future| <= HistoryLimit
  }

  /** `s.slice(-n)`: the last `n` entries, or all of them when there are fewer. */
  function KeepLast<T>(s: seq<T>, n: nat): (r: seq<T>)
    ensures |r| <= n && (|s| <= n ==> r == s)
    ensures |s| >= n ==> |r| == n
    ensures r == s[|s| - |r|..]
  {
    if |s| <= n then s else s[|s| - n..]
  }

  /** `s.slice(0, n)`: the first `n` entries, or all of them when there are fewer. */
  function KeepFirst<T>(s: seq<T>, n: nat): (r: seq<T>)
    ensures |r| <= n && (|s| <= n ==> r == s)
    ensures |s| >= n ==> |r| == n
    ensures r == s[..|r|]
  {
    if |s| <= n then s else s[..n]
  }

  /** `[...past, snapshot].slice(-HISTORY_LIMIT)`. */
  function PushPast(past: seq<Snapshot>, present: Snapshot): seq<Snapshot> {
    KeepLast(past + [present], HistoryLimit)
  }

  /** `pushHistory`: snapshot the live document onto `past`, drop the
      oldest entry beyond the limit, and clear `future`. */
  function Push(t: Timeline): Timeline {
    Timeline(t.present, PushPast(t.past, t.present), [])
  }

  /** `undo`: nothing on an empty `past`; otherwise step back to the last
      snapshot and put the live document in front of `future`. */
  function Undo(t: Timeline): Timeline {
    if t.past == [] then t
    else Timeline(t.past[|t.past| - 1], t.past[..|t.past| - 1], KeepFirst([t.present] + t.future, HistoryLimit))
  }

  /** `redo`: the mirror image of `undo` on `future[0]`. */
  function Redo(t: Timeline): Timeline {
    if t.future == [] then t
    else Timeline(t.future[0], PushPast(t.past, t.present), t.future[1..])
  }

  /** `pushHistory` keeps the document, records it as the newest snapshot,
      keeps the older snapshots that fit, and empties `future`. */
  lemma PushRecordsPresent(t: Timeline)
    requires Bounded(t)
    ensures Bounded(Push(t))
    ensures Push(t).present == t.present && Push(t).future == []
    ensures Push(t).past[|Push(t).past| - 1] == t.present
    ensures |t.past| < HistoryLimit ==> Push(t).past == t.past + [t.present]
    ensures |t.past| == HistoryLimit ==> Push(t).past == t.past[1..] + [t.present]
  {
    var s := t.past + [t.present];
    if |t.past| == HistoryLimit {
      assert s[1..] == t.past[1..] + [t.present];
    }
  }

  /** `undo` on a non-empty `past` moves exactly one snapshot across. */
  lemma UndoStepsBack(t: Timeline)
    requires Bounded(t) && t.past != []
    ensures Bounded(Undo(t))
    ensures Undo(t).present == t.past[|t.past| - 1]
    ensures Undo(t).past + [Undo(t).present] == t.past
    ensures Undo(t).future[0] == t.present
    ensures |t.future| < HistoryLimit ==> Undo(t).future == [t.present] + t.future
  {
    assert t.past[..|t.past| - 1] + [t.past[|t.past| - 1]] == t.past;
  }

  /** `redo` on a non-empty `future` moves exactly one snapshot across. */
  lemma RedoStepsForward(t: Timeline)
    requires Bounded(t) && t.future != []
    ensures Bounded(Redo(t))
    ensures Redo(t).present == t.future[0]
    ensures [Redo(t).present] + Redo(t).future == t.future
    ensures Redo(t).past[|Redo(t).past| - 1] == t.present
    ensures |t.past| < HistoryLimit ==> Redo(t).past == t.past + [t.present]
  {
    assert [t.future[0]] + t.future[1..] == t.future;
  }

  /** Undo then redo gives back the document and `past` exactly; `future`
      comes back whole unless it was full, when its last entry is lost. */
  lemma UndoThenRedo(t: Timeline)
    requires Bounded(t) && t.past != []
    ensures Redo(Undo(t)).present == t.present
    ensures Redo(Undo(t)).past == t.past
    ensures |t.future| < HistoryLimit ==> Redo(Undo(t)) == t
    ensures |t.future| == HistoryLimit ==> Redo(Undo(t)).future == t.future[..HistoryLimit - 1]
  {
    var u := Undo(t);
    assert u.past + [u.present] == t.past by {
      assert t.past[..|t.past| - 1] + [t.past[|t.past| - 1]] == t.past;
    }
    var f := [t.present] + t.future;
    if |t.future| == HistoryLimit {
      assert u.future == f[..HistoryLimit];
      assert u.future[1..] == t.future[..HistoryLimit - 1];
    } else {
      assert u.future[1..] == t.future;
    }
  }

  /** Redo then undo gives back the document and `future` exactly; `past`
      comes back whole unless it was full, when its oldest entry is lost. */
  lemma RedoThenUndo(t: Timeline)
    requires Bounded(t) && t.future != []
    ensures Undo(Redo(t)).present == t.present
    ensures Undo(Redo(t)).future == t.future
    ensures |t.past| < HistoryLimit ==> Undo(Redo(t)) == t
    ensures |t.past| == HistoryLimit ==> Undo(Redo(t)).past == t.past[1..]
  {
    var r := Redo(t);
    var p := t.past + [t.present];
    assert [t.future[0]] + t.future[1..] == t.future;
    if |t.past| == HistoryLimit {
      assert r.past == p[1..];
      assert r.past[..|r.past| - 1] == t.past[1..];
    } else {
      assert r.past[..|r.past| - 1] == t.past;
    }
  }
}
