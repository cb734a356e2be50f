/** The bounded undo stack of the swatch widget, as values: `saveToHistory` pushes a copy of the
    colour list and then drops the oldest entry once the stack exceeds its configured length. */
module UndoHistory {

  /** A copy of the colour list. Sequences are values, so a stored snapshot cannot be reached by
      later edits of the list (the source copies with `[...list]` for the same reason). */
  type Snapshot = seq<string>

  /** How many entries the stack can hold for a configured length. The length is compared with
      `>` after every push, so a non-positive length evicts every entry pushed. */
  function Capacity(historyLength: int): (r: nat) {
    if historyLength > 0 then historyLength else 0
  }

  function Min(a: nat, b: nat): (r: nat) {
    if a <= b then a else b
  }

  /** The newest `n` entries of `s` (all of `s` when it is shorter), still oldest first. */
  function Newest<T>(s: seq<T>, n: nat): (r: seq<T>)
    ensures |r| == Min(|s|, n)
  {
    s[|s| - Min(|s|, n)..]
  }

  /** `saveToHistory`: push, then shift once if the stack has grown past the length. At most
      one entry is dropped, and only from the old end; the new snapshot is kept exactly when
      the grown stack is within the length or the old stack was non-empty. */
  function Pushed(history: seq<Snapshot>, snapshot: Snapshot, historyLength: int): (r: seq<Snapshot>)
    ensures |history| <= |r| <= |history| + 1
    ensures r == Newest(history + [snapshot], |r|)
    ensures |r| == |history| + 1 <==> |history| + 1 <= historyLength
  {
    var grown := history + [snapshot];
    if |grown| > historyLength then grown[1..] else grown
  }

  /** One push keeps the stack bounded and first-in-first-out: from a stack within its capacity
      the result is exactly the newest `Capacity` entries of the old stack with the new snapshot
      appended, and that snapshot is on top whenever the capacity is positive. */
  lemma PushedKeepsNewest(history: seq<Snapshot>, snapshot: Snapshot, historyLength: int)
    requires |history| <= Capacity(historyLength)
    ensures Pushed(history, snapshot, historyLength) == Newest(history + [snapshot], Capacity(historyLength))
    ensures |Pushed(history, snapshot, historyLength)| == Min(|history| + 1, Capacity(historyLength))
    ensures Capacity(historyLength) > 0 ==>
      Pushed(history, snapshot, historyLength)[|Pushed(history, snapshot, historyLength)| - 1] == snapshot
    ensures forall k :: 0 <= k < |Pushed(history, snapshot, historyLength)| ==>
      Pushed(history, snapshot, historyLength)[k] in history + [snapshot]
  {
  }

  /** The stack after pushing each of `snapshots` in turn. */
  function PushedAll(history: seq<Snapshot>, snapshots: seq<Snapshot>, historyLength: int): (r: seq<Snapshot>)
    decreases |snapshots|
  {
    if snapshots == [] then history
    else PushedAll(Pushed(history, snapshots[0], historyLength), snapshots[1..], historyLength)
  }

  /** Dropping entries from the front of `x + y` does not matter to the newest `n` when `y`
      already holds `n` of them, or when nothing is in front of `y`. */
  lemma NewestIgnoresOlder<T>(x: seq<T>, y: seq<T>, n: nat)
    requires |y| >= n || x == []
    ensures Newest(x + y, n) == Newest(y, n)
  {
    if x == [] {
      assert x + y == y;
    } else {
      assert (x + y)[|x + y| - n..] == y[|y| - n..];
    }
  }

  /** Replacing a sequence by its own newest `n` entries does not change the newest `n` entries
      of anything appended to it. */
  lemma NewestOfNewest<T>(grown: seq<T>, rest: seq<T>, n: nat)
    ensures Newest(Newest(grown, n) + rest, n) == Newest(grown + rest, n)
  {
    var kept := Newest(grown, n);
    var d := |grown| - |kept|;
    assert grown == grown[..d] + kept;
    assert grown + rest == grown[..d] + (kept + rest);
    NewestIgnoresOlder(grown[..d], kept + rest, n);
  }

  /** The one fact about a single push the induction below needs. */
  lemma PushedIsNewest(history: seq<Snapshot>, snapshot: Snapshot, historyLength: int)
    requires |history| <= Capacity(historyLength)
    ensures Pushed(history, snapshot, historyLength) == Newest(history + [snapshot], Capacity(historyLength))
  {
    PushedKeepsNewest(history, snapshot, historyLength);
  }

  /** The inductive step of PushedAllKeepsNewest, on sequences alone. */
  lemma NewestAfterFirst<T>(history: seq<T>, first: T, rest: seq<T>, next: seq<T>, n: nat)
    requires next == Newest(history + [first], n)
    ensures Newest(next + rest, n) == Newest(history + ([first] + rest), n)
  {
    NewestOfNewest(history + [first], rest, n);
    assert history + [first] + rest == history + ([first] + rest);
  }

  /** Any number of pushes keeps exactly the newest `Capacity` snapshots of everything ever
      pushed, in push order: eviction is purely by insertion order. */
  lemma {:induction false} PushedAllKeepsNewest(history: seq<Snapshot>, snapshots: seq<Snapshot>, historyLength: int)
    requires |history| <= Capacity(historyLength)
    ensures PushedAll(history, snapshots, historyLength) == Newest(history + snapshots, Capacity(historyLength))
    decreases |snapshots|
  {
    if snapshots == [] {
      assert history + snapshots == history;
    } else {
      var c := Capacity(historyLength);
      var first, rest := snapshots[0], snapshots[1..];
      var next := Pushed(history, first, historyLength);
      PushedIsNewest(history, first, historyLength);
      PushedAllKeepsNewest(next, rest, historyLength);
      NewestAfterFirst(history, first, rest, next, c);
      assert snapshots == [first] + rest;
    }
  }

  /** From an empty stack, after `k` pushes the stack holds the last
      `Min(k, Capacity)` snapshots, so it holds all of them while `k` is within the length and
      exactly `Capacity` of them, the oldest gone, once `k` exceeds it. */
  lemma PushesFromEmpty(snapshots: seq<Snapshot>, historyLength: int)
    ensures |PushedAll([], snapshots, historyLength)| == Min(|snapshots|, Capacity(historyLength))
    ensures |snapshots| <= Capacity(historyLength) ==> PushedAll([], snapshots, historyLength) == snapshots
    ensures |snapshots| > Capacity(historyLength) ==>
      PushedAll([], snapshots, historyLength) == snapshots[|snapshots| - Capacity(historyLength)..]
  {
    PushedAllKeepsNewest([], snapshots, historyLength);
    assert [] + snapshots == snapshots;
  }
}
