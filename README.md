# Colour swatch widget: synchronisation and undo engine

This project models the widget behind the palette editor in `color_palette.py`, a notebook app
that lets a user edit a row of colours and derives a Matplotlib style string from them. The
widget renders one swatch, one label and one colour picker per colour. It keeps these in step
with the `colors` list held by the host model, and it keeps a bounded undo stack that Ctrl+Z
pops while the pointer is over the widget.

Modules:

- `Wrappers`: `Option`, for unset host values and null picker payloads.
- `Construction`: how the Python constructor turns its `colors` argument into a list, and the
  fallbacks the rendered view applies to `colors` and `history_length`.
- `StyleCodes`: the `hex_codes` list, which is each colour with its leading `#` removed.
- `UndoHistory`: `saveToHistory` as a function on values. It pushes a snapshot, then drops the
  oldest entry when the stack grows past its length.
- `PaletteModel`: the colour list, the stack and the undo depth as one value. It defines the
  three transitions commit, undo and host replacement, and the lemmas that compose them.
- `Swatches`: class `ColorSwatches`, the state and event handlers of the `render` closure. The
  swatch backgrounds, label texts, picker colours and picker visibility are arrays with one slot
  per swatch. Each handler is a method. Its `ensures` ties the new state to the matching
  `PaletteModel` transition and says what each display slot now shows.

How the host binding is modelled: `model.set('colors', …)` followed by `model.save_changes()` is
`SetColors`. It replaces `colors` and then calls the `change:colors` handler (`OnColorsChanged`)
synchronously. That way the suppression flag `isUpdatingFromPickr` has an echo to suppress. Two
ghost counters record how often the handler ran and how often it went on to refresh the display.
`Save` and `Undo` therefore prove that their own writes go through the handler exactly once and
refresh nothing. `HostSetColors` proves that a write from outside refreshes exactly once.

The class invariant `Valid()` holds between events. It says: every display slot shows the list's
entry for its index; the list has one entry per swatch; the stack is within its capacity and
holds only snapshots of that length; and no internal write is in progress.

In three places the code does something a reader might not expect, and the model follows the code:

- The `change:colors` handler calls the picker's `setColor` without the silent flag
  (line 159), although `undo` refreshes its pickers silently (line 87).
- `history_length` is taken as any integer. `|| 10` only replaces 0 (line 70), so a negative
  length is kept, and it makes every push evict.
- An empty `colors` list is kept, not replaced by the default. An empty JavaScript array is
  truthy, so `|| ['#335791']` (line 67) replaces only an unset value.

## Model

| member | source | states |
|---|---|---|
| `Construction.InitialColors` | color_palette.py:209-212 | a single colour string becomes a one-element list holding it; a list is passed through unchanged |
| `Construction.RenderColors` | color_palette.py:67 | the rendered view uses the host's list when it is set, even when it is empty, and `['#335791']` only when it is unset |
| `Construction.EffectiveHistoryLength` | color_palette.py:70 | the undo depth is the host's `history_length` when that is set and non-zero, otherwise 10; it is never 0 |
| `Construction.DefaultsAgree` | color_palette.py:67-209 | the constructor's default argument `"#335791"` (line 209), once coerced, is the same list as the render-time fallback `['#335791']` (line 67) |
| `StyleCodes.StripHashes` | color_palette.py:241 | `lstrip('#')`: the colour is a run of `#` followed by the result, and the result does not start with `#` |
| `StyleCodes.StripHashesUnique` | color_palette.py:241 | any split of a colour into a run of `#` and a rest not starting with `#` has that rest as the stripped colour |
| `StyleCodes.StripHashesIdempotent` | color_palette.py:241 | stripping a stripped colour changes nothing |
| `StyleCodes.StripHashesOfHexColor` | color_palette.py:241 | `#` followed by a body not starting with `#` strips to exactly that body |
| `StyleCodes.HexCodes` | color_palette.py:241 | one code per colour, in the same order; each is that colour stripped of its leading `#` and none starts with `#` |
| `UndoHistory.Pushed` | color_palette.py:73-76 | push the snapshot, then drop the oldest entry once when the stack is longer than the length; at most one entry is dropped, only from the old end, and nothing is dropped exactly when the grown stack is within the length |
| `UndoHistory.PushedKeepsNewest` | color_palette.py:73-76 | one push from a stack within capacity is the newest `Capacity` entries of the old stack with the new snapshot appended; the length becomes min(old+1, capacity); the new snapshot is on top whenever the capacity is positive; every entry comes from the old stack or the new snapshot |
| `UndoHistory.PushedAllKeepsNewest` | color_palette.py:73-76 | any number of pushes keeps exactly the newest `Capacity` snapshots ever pushed, in push order (first-in-first-out eviction) |
| `UndoHistory.PushesFromEmpty` | color_palette.py:70-76 | from an empty stack, after k pushes the stack holds min(k, capacity) snapshots: all k of them while k is within the length, and otherwise the newest `Capacity`, with the oldest evicted |
| `PaletteModel.Commit` | color_palette.py:137-148 | a commit keeps the list's length, leaves every other index unchanged, and sets the committed index to the picked colour |
| `PaletteModel.CommitPushesOneSnapshot` | color_palette.py:137-145 | a non-null commit pushes exactly one snapshot, equal to the list before the edit; it evicts the oldest entry only when the stack was full, and it keeps the palette consistent |
| `PaletteModel.NullCommitIgnored` | color_palette.py:137-138 | a commit with a null colour leaves the list and the stack unchanged |
| `PaletteModel.Undo` | color_palette.py:78-88 | undo never changes the undo depth; its effect on the list and the stack is stated by `PaletteModel.UndoPopsNewest` |
| `PaletteModel.HostReplace` | color_palette.py:154-164 | a host-side write replaces the list and leaves the stack untouched |
| `PaletteModel.UndoPopsNewest` | color_palette.py:78-88 | undo on an empty stack is the identity; otherwise the newest snapshot becomes the list and the stack shrinks by one; the list length and consistency are kept |
| `PaletteModel.UndoAfterCommit` | color_palette.py:73-90 | undo right after a commit restores the pre-commit list whenever the capacity is positive, and the whole palette when the commit did not evict |
| `PaletteModel.NonPositiveLengthDisablesUndo` | color_palette.py:70-76 | with a depth of 0 or less, a commit leaves the stack empty and a following undo does nothing |
| `PaletteModel.ListsBeforeEdits` | color_palette.py:139-145 | one pre-edit list per commit, the first being the list before the first edit |
| `PaletteModel.ListsBeforeEditsAt` | color_palette.py:139-145 | entry k of the pre-edit lists is the colour list as the first k commits left it, so the lists are the successive states of the list in commit order |
| `PaletteModel.CommitAllPushesPreEditLists` | color_palette.py:137-145 | a run of commits leaves on the stack exactly what pushing each pre-edit list in turn leaves |
| `PaletteModel.CommitsKeepNewestPreEditLists` | color_palette.py:70-76 | after k commits the stack holds min(old size + k, capacity) entries: the newest `Capacity` entries of the old stack with the k pre-edit lists appended, oldest evicted first; from an empty stack and k within the length, exactly the k pre-edit lists |
| `PaletteModel.UndoWalksBack` | color_palette.py:73-90 | k commits followed by k undos restore the starting palette exactly, as long as no commit had to evict |
| `PaletteModel.UndoWalksHistory` | color_palette.py:78-90 | after k undos (k within the stack size) the k newest entries are gone and the list is the k-th newest snapshot |
| `PaletteModel.UndoDrains` | color_palette.py:78-80 | once at least as many undos as stack entries have run, the stack is empty and further undos change nothing |
| `PaletteModel.TwoSwatchScenario` | color_palette.py:73-90 | two commits and three undos on `["#111111","#222222"]` with depth 2 give the lists and stacks worked out by hand; the third undo is a no-op |
| `Swatches.ColorSwatches.constructor` | color_palette.py:59-135 | rendering starts from the fallback-adjusted list and depth, an empty stack, no hover, and one synchronised swatch, label and closed picker per colour |
| `Swatches.ColorSwatches.SaveToHistory` | color_palette.py:73-76 | the stack becomes the `Pushed` stack of the host's current list |
| `Swatches.ColorSwatches.OnColorsChanged` | color_palette.py:154-164 | the change handler does nothing while the flag is set; otherwise it makes each swatch, label and picker whose index is within the list show that entry, leaves the slots beyond the list alone, and never touches the stack |
| `Swatches.ColorSwatches.SetColors` | color_palette.py:144-145 | the host's list is replaced and the change handler runs exactly once, refreshing only when the flag is clear |
| `Swatches.ColorSwatches.HostSetColors` | color_palette.py:154-164 | a same-length write from outside refreshes every display slot exactly once, keeps the invariant and leaves the stack alone |
| `Swatches.ColorSwatches.OpenPicker` | color_palette.py:123-127 | clicking a swatch opens its picker and changes nothing else |
| `Swatches.ColorSwatches.Save` | color_palette.py:137-151 | the save handler follows `PaletteModel.Commit`; for a colour only that swatch, label and picker change, to the colour; for null nothing changes; the picker closes either way; the handler's own write is suppressed, and the flag is clear again afterwards |
| `Swatches.ColorSwatches.Undo` | color_palette.py:78-90 | undo follows `PaletteModel.Undo`; every swatch, label and picker then shows the restored list; the write is suppressed, and the flag is clear afterwards |
| `Swatches.ColorSwatches.MouseEnter` | color_palette.py:94 | entering the container sets the hover flag and changes nothing else |
| `Swatches.ColorSwatches.MouseLeave` | color_palette.py:95 | leaving the container clears the hover flag and changes nothing else |
| `Swatches.ColorSwatches.KeyDown` | color_palette.py:98-103 | a key event undoes and prevents the default action exactly when the widget is hovered, Ctrl is held and the key is `z`; any other key event changes nothing; the change handler runs once per undo that pops a snapshot and never refreshes |

## Left out

- Loading the picker library's stylesheet and script from a CDN (lines 32-57). It is asynchronous I/O against a foreign library.
- DOM element creation, the picker's creation options, and the picker's colour serialisation `toHEXA().toString()` (lines 105-135, 140). `Save` receives the serialised colour as an opaque string, and the picker slot records it as the colour the picker holds.
- Swatches.ColorSwatches.OnColorsChanged: the picker's non-silent `setColor` (line 159) is modelled only as changing the colour that picker holds. The picker library may also fire its own `save` event from that call. That would re-enter the commit handler and push history. The library is not part of this model, so that consequence is not captured.
- Swatches.ColorSwatches.HostSetColors: requires the new list to be as long as the swatch row, because the class invariant keeps `colors` at that length. A longer write would let a later undo index past the display arrays (lines 84-88), and the source has no handling for that. `OnColorsChanged` itself is proved for lists of any length.
- Swatches.ColorSwatches.constructor: when the host's `colors` is unset, the model also sets the host's list to the fallback. The source only renders the fallback and leaves the host value unset. With the trait declared at line 206, the host value is always a list.
- The host's change events are assumed to fire on every write. The host framework skips writes of an equal value, which would only drop a refresh that changes nothing.
- The `keydown` listener is registered on the whole document and never removed (line 98). Teardown and several views of one widget are not modelled. Each `ColorSwatches` object is one rendered view with its own state.
- `preventDefault()` is modelled as the Boolean that `KeyDown` returns.
- The component stylesheet (lines 170-204) is presentation only.
- The trait declarations and widget sync machinery, the notebook cells and their text, and the formatting of the `prop_cycle` line (lines 12-23, 206-207, 216-236, 242-249). They are the host runtime and text layout.
- The sample plot (lines 253-278). It is floating-point numerics in a foreign library.
