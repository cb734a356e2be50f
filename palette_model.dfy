/** The swatch widget's colour list and undo stack as a value, with the three transitions the
    event handlers perform on it: a picker commit, an undo, and a host-side replacement. The
    class in module Swatches is proved to follow these functions step by step; the lemmas here
    state what the transitions promise when composed. */
module PaletteModel {
  import opened Wrappers
  import opened UndoHistory

  /** The host's colour list, the undo stack and the effective undo depth. */
  datatype Palette = Palette(colors: seq<string>, history: seq<Snapshot>, historyLength: int)

  /** The stack is within its bound and every snapshot is as long as the list. */
  ghost predicate Consistent(p: Palette) {
    && |p.history| <= Capacity(p.historyLength)
    && forall k :: 0 <= k < |p.history| ==> |p.history[k]| == |p.colors|
  }

  /** The picker `save` handler for swatch `index`: a null colour is ignored; otherwise the
      current list is pushed and the list is replaced by a copy with entry `index` set. */
  function Commit(p: Palette, index: nat, picked: Option<string>): (r: Palette)
    requires index < |p.colors|
    ensures |r.colors| == |p.colors| && r.historyLength == p.historyLength
    ensures picked.Some? ==> r.colors[index] == picked.value
    ensures forall j :: 0 <= j < |p.colors| && j != index ==> r.colors[j] == p.colors[j]
  {
    match picked
    case None => p
    case Some(hex) => Palette(p.colors[index := hex], Pushed(p.history, p.colors, p.historyLength), p.historyLength)
  }

  /** `undo`: with an empty stack nothing happens; otherwise the top snapshot is popped and
      becomes the list. */
  function Undo(p: Palette): (r: Palette)
    ensures r.historyLength == p.historyLength
  {
    if |p.history| == 0 then p
    else Palette(p.history[|p.history| - 1], p.history[..|p.history| - 1], p.historyLength)
  }

  /** A write of the list from outside the widget: the stack is not touched. */
  function HostReplace(p: Palette, newColors: seq<string>): (r: Palette)
    ensures r.colors == newColors && r.history == p.history && r.historyLength == p.historyLength
  {
    p.(colors := newColors)
  }

  /** A commit of a real colour pushes exactly one snapshot, equal to the list before the edit,
      evicting the oldest entry only when the stack was full, and keeps the palette consistent. */
  lemma CommitPushesOneSnapshot(p: Palette, index: nat, hex: string)
    requires Consistent(p) && index < |p.colors|
    ensures Commit(p, index, Some(hex)).history == Newest(p.history + [p.colors], Capacity(p.historyLength))
    ensures |Commit(p, index, Some(hex)).history| == Min(|p.history| + 1, Capacity(p.historyLength))
    ensures Capacity(p.historyLength) > 0 ==>
      Commit(p, index, Some(hex)).history[|Commit(p, index, Some(hex)).history| - 1] == p.colors
    ensures Consistent(Commit(p, index, Some(hex)))
  {
    var r := Commit(p, index, Some(hex));
    PushedKeepsNewest(p.history, p.colors, p.historyLength);
    forall k | 0 <= k < |r.history| ensures |r.history[k]| == |r.colors| {
      assert r.history[k] in p.history + [p.colors];
    }
  }

  /** A commit with a null colour changes nothing at all. */
  lemma NullCommitIgnored(p: Palette, index: nat)
    requires index < |p.colors|
    ensures Commit(p, index, None) == p
  {
  }

  /** Undo pops the most recent snapshot into the list and shrinks the stack by one; on an
      empty stack it is the identity. Either way the palette stays consistent. */
  lemma UndoPopsNewest(p: Palette)
    requires Consistent(p)
    ensures |p.history| == 0 ==> Undo(p) == p
    ensures |p.history| > 0 ==>
      Undo(p).colors == p.history[|p.history| - 1] && Undo(p).history == p.history[..|p.history| - 1]
    ensures |Undo(p).colors| == |p.colors|
    ensures Consistent(Undo(p))
  {
  }

  /** Undo right after a commit restores exactly the list before it whenever the stack can
      hold anything; when the commit did not evict, the whole palette is restored. */
  lemma UndoAfterCommit(p: Palette, index: nat, hex: string)
    requires Consistent(p) && index < |p.colors|
    ensures Capacity(p.historyLength) > 0 ==> Undo(Commit(p, index, Some(hex))).colors == p.colors
    ensures |p.history| < Capacity(p.historyLength) ==> Undo(Commit(p, index, Some(hex))) == p
  {
    CommitPushesOneSnapshot(p, index, hex);
    if |p.history| < Capacity(p.historyLength) {
      var r := Commit(p, index, Some(hex));
      assert r.history == p.history + [p.colors];
      assert r.history[..|r.history| - 1] == p.history;
    }
  }

  /** A non-positive undo depth (a negative `history_length`, which the `|| 10` fallback does
      not replace) keeps the stack empty, so undo after a commit does nothing. */
  lemma NonPositiveLengthDisablesUndo(p: Palette, index: nat, hex: string)
    requires Consistent(p) && index < |p.colors| && p.historyLength <= 0
    ensures Commit(p, index, Some(hex)).history == []
    ensures Undo(Commit(p, index, Some(hex))) == Commit(p, index, Some(hex))
  {
  }

  /** A sequence of user edits: swatch index and the colour committed there. */
  datatype Edit = Edit(index: nat, hex: string)

  ghost predicate EditsFit(edits: seq<Edit>, count: nat) {
    forall k :: 0 <= k < |edits| ==> edits[k].index < count
  }

  /** The palette after committing each edit in turn. */
  function CommitAll(p: Palette, edits: seq<Edit>): (r: Palette)
    requires EditsFit(edits, |p.colors|)
    ensures |r.colors| == |p.colors| && r.historyLength == p.historyLength
    decreases |edits|
  {
    if edits == [] then p
    else CommitAll(Commit(p, edits[0].index, Some(edits[0].hex)), edits[1..])
  }

  /** The list as it stood just before each edit of `edits` was committed, in commit order:
      the snapshots those commits push. */
  function ListsBeforeEdits(p: Palette, edits: seq<Edit>): (r: seq<Snapshot>)
    requires EditsFit(edits, |p.colors|)
    ensures |r| == |edits|
    ensures edits != [] ==> r[0] == p.colors
    decreases |edits|
  {
    if edits == [] then []
    else [p.colors] + ListsBeforeEdits(Commit(p, edits[0].index, Some(edits[0].hex)), edits[1..])
  }

  /** Entry `k` of ListsBeforeEdits is the list as the first `k` edits left it: the lists are the
      successive states of the colour list, in commit order. */
  lemma {:induction false} ListsBeforeEditsAt(p: Palette, edits: seq<Edit>, k: nat)
    requires EditsFit(edits, |p.colors|) && k < |edits|
    ensures EditsFit(edits[..k], |p.colors|)
    ensures ListsBeforeEdits(p, edits)[k] == CommitAll(p, edits[..k]).colors
    decreases k
  {
    assert EditsFit(edits[..k], |p.colors|) by {
      forall j | 0 <= j < k ensures edits[..k][j].index < |p.colors| {
        assert edits[..k][j] == edits[j];
      }
    }
    if k == 0 {
      assert edits[..0] == [];
    } else {
      var next := Commit(p, edits[0].index, Some(edits[0].hex));
      assert EditsFit(edits[1..], |next.colors|) by {
        forall j | 0 <= j < |edits[1..]| ensures edits[1..][j].index < |next.colors| {
          assert edits[1..][j] == edits[j + 1];
        }
      }
      ListsBeforeEditsAt(next, edits[1..], k - 1);
      assert edits[..k][1..] == edits[1..][..k - 1];
      assert edits[..k][0] == edits[0];
      assert CommitAll(p, edits[..k]) == CommitAll(next, edits[1..][..k - 1]);
    }
  }

  /** Committing a sequence of edits leaves on the stack exactly what pushing the pre-edit lists
      one by one leaves, so the stack bound and first-in-first-out eviction proved for pushes
      carry over to commits. */
  lemma {:induction false} CommitAllPushesPreEditLists(p: Palette, edits: seq<Edit>)
    requires EditsFit(edits, |p.colors|)
    ensures CommitAll(p, edits).history == PushedAll(p.history, ListsBeforeEdits(p, edits), p.historyLength)
    decreases |edits|
  {
    if edits != [] {
      var next := Commit(p, edits[0].index, Some(edits[0].hex));
      assert EditsFit(edits[1..], |next.colors|) by {
        forall k | 0 <= k < |edits[1..]| ensures edits[1..][k].index < |next.colors| {
          assert edits[1..][k] == edits[k + 1];
        }
      }
      CommitAllPushesPreEditLists(next, edits[1..]);
      var lists := ListsBeforeEdits(p, edits);
      assert lists[1..] == ListsBeforeEdits(next, edits[1..]);
    }
  }

  /** After `k` commits from a consistent palette the stack holds the newest `Capacity` entries of
      the old stack with the `k` pre-edit lists appended; from an empty stack, all `k` of them while
      `k` is within the length, and otherwise the newest `Capacity`, the oldest evicted. */
  lemma CommitsKeepNewestPreEditLists(p: Palette, edits: seq<Edit>)
    requires Consistent(p) && EditsFit(edits, |p.colors|)
    ensures CommitAll(p, edits).history ==
      Newest(p.history + ListsBeforeEdits(p, edits), Capacity(p.historyLength))
    ensures p.history == [] && |edits| <= Capacity(p.historyLength) ==>
      CommitAll(p, edits).history == ListsBeforeEdits(p, edits)
    ensures |CommitAll(p, edits).history| == Min(|p.history| + |edits|, Capacity(p.historyLength))
  {
    CommitAllPushesPreEditLists(p, edits);
    PushedAllKeepsNewest(p.history, ListsBeforeEdits(p, edits), p.historyLength);
    if p.history == [] {
      assert p.history + ListsBeforeEdits(p, edits) == ListsBeforeEdits(p, edits);
    }
  }

  /** The palette after `k` undos. */
  function UndoN(p: Palette, k: nat): (r: Palette) {
    if k == 0 then p else Undo(UndoN(p, k - 1))
  }

  /** As many undos as there were commits walk back to the starting palette, provided the
      stack never had to evict on the way. */
  lemma {:induction false} UndoWalksBack(p: Palette, edits: seq<Edit>)
    requires Consistent(p) && EditsFit(edits, |p.colors|)
    requires |p.history| + |edits| <= Capacity(p.historyLength)
    ensures UndoN(CommitAll(p, edits), |edits|) == p
    decreases |edits|
  {
    if edits != [] {
      var e := edits[0];
      var next := Commit(p, e.index, Some(e.hex));
      CommitPushesOneSnapshot(p, e.index, e.hex);
      assert EditsFit(edits[1..], |next.colors|) by {
        forall k | 0 <= k < |edits[1..]| ensures edits[1..][k].index < |next.colors| {
          assert edits[1..][k] == edits[k + 1];
        }
      }
      UndoWalksBack(next, edits[1..]);
      UndoAfterCommit(p, e.index, e.hex);
    }
  }

  /** Repeated undo walks strictly backwards through the stack: after `k` undos the stack has
      lost its `k` newest entries and the list is the last one popped. */
  lemma {:induction false} UndoWalksHistory(p: Palette, k: nat)
    requires k <= |p.history|
    ensures UndoN(p, k).history == p.history[..|p.history| - k]
    ensures k > 0 ==> UndoN(p, k).colors == p.history[|p.history| - k]
    ensures k == 0 ==> UndoN(p, k) == p
  {
    if k > 0 {
      UndoWalksHistory(p, k - 1);
      var q := UndoN(p, k - 1);
      assert |q.history| == |p.history| - (k - 1) > 0;
      assert q.history[..|q.history| - 1] == p.history[..|p.history| - k];
    }
  }

  /** Once the stack is used up, further undos change nothing. */
  lemma UndoDrains(p: Palette, k: nat)
    requires k >= |p.history|
    ensures UndoN(p, k).history == []
    ensures Undo(UndoN(p, k)) == UndoN(p, k)
    decreases k
  {
    if k > |p.history| {
      UndoDrains(p, k - 1);
    } else {
      UndoWalksHistory(p, k);
    }
  }

  /** The worked example of two commits and three undos on a two-colour palette with an undo
      depth of two. */
  lemma TwoSwatchScenario()
    ensures var p0 := Palette(["#111111", "#222222"], [], 2);
      var p1 := Commit(p0, 0, Some("#333333"));
      var p2 := Commit(p1, 1, Some("#444444"));
      && p1 == Palette(["#333333", "#222222"], [["#111111", "#222222"]], 2)
      && p2 == Palette(["#333333", "#444444"], [["#111111", "#222222"], ["#333333", "#222222"]], 2)
      && Undo(p2) == Palette(["#333333", "#222222"], [["#111111", "#222222"]], 2)
      && Undo(Undo(p2)) == Palette(["#111111", "#222222"], [], 2)
      && Undo(Undo(Undo(p2))) == Undo(Undo(p2))
  {
    var p0 := Palette(["#111111", "#222222"], [], 2);
    var p1 := Commit(p0, 0, Some("#333333"));
    assert p1.colors == ["#333333", "#222222"];
    var p2 := Commit(p1, 1, Some("#444444"));
    assert p2.colors == ["#333333", "#444444"];
  }
}
