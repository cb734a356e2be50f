/** The rendered swatch widget: the state and event handlers of the view's `render` closure.
    The host model's `colors` value, the undo stack, the suppression flag and the hover flag
    are fields; the per-swatch display state (swatch background, label text, the colour each
    picker holds, and whether it is open) lives in fixed arrays, one slot per swatch, created
    once at render and updated in place. */
module Swatches {
  import opened Wrappers
  import opened UndoHistory
  import opened Construction
  import PaletteModel

  class ColorSwatches {
    /** The host model's `colors` value, read with `model.get` and replaced with `model.set`. */
    var colors: seq<string>
    /** The undo stack, oldest snapshot first. */
    var history: seq<Snapshot>
    /** The effective undo depth fixed at render. */
    const historyLength: int
    /** Set while the widget itself is writing `colors`, so that the change handler ignores it. */
    var isUpdatingFromPickr: bool
    /** Whether the pointer is over the widget's container. */
    var isHovering: bool

    /** Background colour of each swatch element. */
    const backgrounds: array<string>
    /** Text of each swatch's label. */
    const labels: array<string>
    /** The colour each picker instance holds. */
    const pickers: array<string>
    /** Whether each picker is open. */
    const shown: array<bool>

    /** How many times the `change:colors` handler has been invoked, and how many of those
        invocations refreshed the display rather than returning early. */
    ghost var notifications: nat
    ghost var refreshes: nat

    /** One slot per swatch in every display array, and no two arrays the same. */
    ghost predicate Wired()
      reads this
    {
      && labels.Length == backgrounds.Length
      && pickers.Length == backgrounds.Length
      && shown.Length == backgrounds.Length
      && backgrounds != labels && backgrounds != pickers && labels != pickers
    }

    /** The number of swatches. */
    function Count(): (n: nat)
      reads this
    {
      backgrounds.Length
    }

    /** The list, the stack and the depth as a value of the reference model. */
    function State(): (p: PaletteModel.Palette)
      reads this
    {
      PaletteModel.Palette(colors, history, historyLength)
    }

    /** Every swatch, label and picker shows the list's entry for its index. */
    ghost predicate Synced()
      reads this, backgrounds, labels, pickers
    {
      && Wired()
      && |colors| == Count()
      && forall i :: 0 <= i < Count() ==>
           backgrounds[i] == colors[i] && labels[i] == colors[i] && pickers[i] == colors[i]
    }

    /** The state between two events: displays in step with the list, the stack bounded and
        made of snapshots as long as the list, and no internal write in progress. */
    ghost predicate Valid()
      reads this, backgrounds, labels, pickers
    {
      && Synced()
      && PaletteModel.Consistent(State())
      && !isUpdatingFromPickr
    }

    /** `render`: read the host's colours and undo depth (with their fallbacks), then create
        one swatch, label and closed picker per colour, in order. */
    constructor (stored: Option<seq<string>>, historySetting: Option<int>)
      ensures Valid()
      ensures colors == RenderColors(stored) && history == []
      ensures historyLength == EffectiveHistoryLength(historySetting)
      ensures !isHovering
      ensures forall i :: 0 <= i < shown.Length ==> !shown[i]
      ensures fresh(backgrounds) && fresh(labels) && fresh(pickers) && fresh(shown)
      ensures notifications == 0 && refreshes == 0
    {
      var initial := RenderColors(stored);
      var n := |initial|;
      var bg := new string[n];
      var lb := new string[n];
      var pk := new string[n];
      var sh := new bool[n];
      for index := 0 to n
        invariant forall i :: 0 <= i < index ==>
          bg[i] == initial[i] && lb[i] == initial[i] && pk[i] == initial[i] && !sh[i]
      {
        lb[index] := initial[index];
        bg[index] := initial[index];
        pk[index] := initial[index];
        sh[index] := false;
      }
      colors := initial;
      history := [];
      historyLength := EffectiveHistoryLength(historySetting);
      isUpdatingFromPickr := false;
      isHovering := false;
      backgrounds, labels, pickers, shown := bg, lb, pk, sh;
      notifications, refreshes := 0, 0;
    }

    /** `saveToHistory`: push a copy of the host's current list, evicting the oldest entry
        when the stack grows past its length. */
    method SaveToHistory()
      modifies this`history
      ensures history == Pushed(old(history), colors, historyLength)
    {
      history := history + [colors];
      if |history| > historyLength {
        history := history[1..];
      }
    }

    /** The `change:colors` handler: returns at once while the widget is writing the list
        itself; otherwise it refreshes each swatch, label and picker from the new list, for
        the indices that have a swatch only. It never touches the stack. */
    method OnColorsChanged()
      requires Wired()
      modifies this`notifications, this`refreshes, backgrounds, labels, pickers
      ensures notifications == old(notifications) + 1
      ensures refreshes == old(refreshes) + (if isUpdatingFromPickr then 0 else 1)
      ensures isUpdatingFromPickr ==> unchanged(backgrounds, labels, pickers)
      ensures !isUpdatingFromPickr ==> forall i :: 0 <= i < Count() ==>
        backgrounds[i] == (if i < |colors| then colors[i] else old(backgrounds[i]))
      ensures !isUpdatingFromPickr ==> forall i :: 0 <= i < Count() ==>
        labels[i] == (if i < |colors| then colors[i] else old(labels[i]))
      ensures !isUpdatingFromPickr ==> forall i :: 0 <= i < Count() ==>
        pickers[i] == (if i < |colors| then colors[i] else old(pickers[i]))
    {
      notifications := notifications + 1;
      if isUpdatingFromPickr {
        return;
      }
      refreshes := refreshes + 1;
      var newColors := colors;
      for index := 0 to |newColors|
        modifies backgrounds, labels, pickers
        invariant forall i :: 0 <= i < Count() ==>
          backgrounds[i] == (if i < index then newColors[i] else old(backgrounds[i]))
        invariant forall i :: 0 <= i < Count() ==>
          labels[i] == (if i < index then newColors[i] else old(labels[i]))
        invariant forall i :: 0 <= i < Count() ==>
          pickers[i] == (if i < index then newColors[i] else old(pickers[i]))
      {
        if index < pickers.Length {
          pickers[index] := newColors[index];
          backgrounds[index] := newColors[index];
          labels[index] := newColors[index];
        }
      }
    }

    /** `model.set('colors', …)` followed by `model.save_changes()`: the host's list is
        replaced and the change handler runs synchronously. */
    method SetColors(newColors: seq<string>)
      requires Wired()
      modifies this`colors, this`notifications, this`refreshes, backgrounds, labels, pickers
      ensures colors == newColors
      ensures notifications == old(notifications) + 1
      ensures refreshes == old(refreshes) + (if isUpdatingFromPickr then 0 else 1)
      ensures isUpdatingFromPickr ==> unchanged(backgrounds, labels, pickers)
      ensures !isUpdatingFromPickr ==> forall i :: 0 <= i < Count() ==>
        backgrounds[i] == (if i < |newColors| then newColors[i] else old(backgrounds[i]))
      ensures !isUpdatingFromPickr ==> forall i :: 0 <= i < Count() ==>
        labels[i] == (if i < |newColors| then newColors[i] else old(labels[i]))
      ensures !isUpdatingFromPickr ==> forall i :: 0 <= i < Count() ==>
        pickers[i] == (if i < |newColors| then newColors[i] else old(pickers[i]))
    {
      colors := newColors;
      OnColorsChanged();
    }

    /** A write of the list by the host (another view or the Python side) of the same length
        as the swatch row: the change handler refreshes every swatch, exactly once, and the
        stack is left alone. */
    method HostSetColors(newColors: seq<string>)
      requires Valid() && |newColors| == Count()
      modifies this`colors, this`notifications, this`refreshes, backgrounds, labels, pickers
      ensures Valid()
      ensures State() == PaletteModel.HostReplace(old(State()), newColors)
      ensures notifications == old(notifications) + 1 && refreshes == old(refreshes) + 1
    {
      SetColors(newColors);
    }

    /** The click on a swatch that opens its picker (the swatch is the picker's button). */
    method OpenPicker(index: nat)
      requires Valid() && index < Count()
      modifies shown
      ensures Valid()
      ensures shown[..] == old(shown[..])[index := true]
    {
      shown[index] := true;
    }

    /** The picker `save` handler of swatch `index`, given the colour the picker reports in
        its hex serialisation, or None for a null colour object. A colour is committed: the
        list before the edit is pushed, the list is rewritten with the suppression flag set
        (so the change handler returns early), and that swatch and label take the colour.
        A null colour changes nothing. The picker is closed in both cases. */
    method Save(index: nat, picked: Option<string>)
      requires Valid() && index < Count()
      modifies this, backgrounds, labels, pickers, shown
      ensures Valid()
      ensures State() == PaletteModel.Commit(old(State()), index, picked)
      ensures picked.Some? ==> backgrounds[..] == old(backgrounds[..])[index := picked.value]
      ensures picked.Some? ==> labels[..] == old(labels[..])[index := picked.value]
      ensures picked.Some? ==> pickers[..] == old(pickers[..])[index := picked.value]
      ensures picked.None? ==> unchanged(backgrounds, labels, pickers)
      ensures shown[..] == old(shown[..])[index := false]
      ensures isHovering == old(isHovering)
      ensures notifications == old(notifications) + (if picked.Some? then 1 else 0)
      ensures refreshes == old(refreshes)
    {
      if picked.Some? {
        PaletteModel.CommitPushesOneSnapshot(State(), index, picked.value);
        SaveToHistory();
        var hex := picked.value;
        // The picker already holds the colour it has just reported.
        pickers[index] := hex;
        isUpdatingFromPickr := true;
        var currentColors := colors;
        currentColors := currentColors[index := hex];
        SetColors(currentColors);
        backgrounds[index] := hex;
        labels[index] := hex;
        isUpdatingFromPickr := false;
      }
      shown[index] := false;
    }

    /** `undo`: nothing on an empty stack; otherwise pop the newest snapshot, write it to the
        host with the suppression flag set, and show it on every swatch, label and picker. */
    method Undo()
      requires Valid()
      modifies this, backgrounds, labels, pickers
      ensures Valid()
      ensures State() == PaletteModel.Undo(old(State()))
      ensures isHovering == old(isHovering)
      ensures notifications == old(notifications) + (if |old(history)| == 0 then 0 else 1)
      ensures refreshes == old(refreshes)
    {
      if |history| == 0 {
        return;
      }
      PaletteModel.UndoPopsNewest(State());
      var previousColors := history[|history| - 1];
      history := history[..|history| - 1];
      isUpdatingFromPickr := true;
      SetColors(previousColors);
      for i := 0 to |previousColors|
        modifies backgrounds, labels, pickers
        invariant forall k :: 0 <= k < i ==>
          backgrounds[k] == previousColors[k] && labels[k] == previousColors[k] && pickers[k] == previousColors[k]
      {
        backgrounds[i] := previousColors[i];
        labels[i] := previousColors[i];
        pickers[i] := previousColors[i];
      }
      isUpdatingFromPickr := false;
    }

    /** The container's `mouseenter` listener. */
    method MouseEnter()
      modifies this`isHovering
      ensures isHovering
    {
      isHovering := true;
    }

    /** The container's `mouseleave` listener. */
    method MouseLeave()
      modifies this`isHovering
      ensures !isHovering
    {
      isHovering := false;
    }

    /** The document's `keydown` listener: Ctrl with the key `z` undoes, and suppresses the
        browser's default action, only while the pointer is over the widget. Every other key
        event changes nothing. */
    method KeyDown(ctrlKey: bool, key: string) returns (defaultPrevented: bool)
      requires Valid()
      modifies this, backgrounds, labels, pickers
      ensures Valid()
      ensures defaultPrevented == (old(isHovering) && ctrlKey && key == "z")
      ensures State() == if defaultPrevented then PaletteModel.Undo(old(State())) else old(State())
      ensures isHovering == old(isHovering)
      ensures notifications == old(notifications) + (if defaultPrevented && |old(history)| > 0 then 1 else 0)
      ensures refreshes == old(refreshes)
      ensures !defaultPrevented ==> unchanged(this) && unchanged(backgrounds, labels, pickers)
    {
      defaultPrevented := isHovering && ctrlKey && key == "z";
      if defaultPrevented {
        Undo();
      }
    }
  }
}
