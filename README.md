# window.js tiling layout, modelled in Dafny

window.js is a jQuery plugin that cuts a container into a binary tree of
panes ("windows"). Each pane is either a leaf holding content or a split into
exactly two child panes separated by a draggable divider bar. This project
models the plugin's layout engine and proves what its operations promise:

- the recursive sizing pass `Window.prototype.size`, which shares a pixel
  delta between two children in proportion to their extents, forwards it in
  full across the split, and diverts it around a fixed child;
- `add`/`append`, which split a leaf: its content moves into a new "wrap"
  pane, the new pane is placed before or after the wrap, and a 5 px divider
  is taken from the first child;
- `remove`, which dissolves a split and lets the sibling take the parent's
  place and size;
- the divider drag (`startDrag`, `move`, `end`);
- `save` and `load`, as records rather than JSON text, including `load`'s
  fixed-sibling rule;
- `resize` and `getMain`;
- the value computations of edit mode: which windows can be picked, and which
  side (and what size) a pointer position chooses.

The panes live in an arena, `seq<Pane>`, indexed by a handle that is the
allocation order. A pane stores its parent as a handle and its children as a
sequence of handles. `Panes.WellFormed` says the tree is strictly binary, that
children point back at their parent, and that a child is allocated after its
parent. Between operations the manager also keeps every split pane's first
child floating exactly when the pane is split along `'width'`, which is how
`load` reads the axis back. The window manager is a class (`Layout.Manager`)
whose methods update the arena and the other fields in place:

- the list of windows;
- the id counter;
- the current window;
- the recorded container size;
- the dividers;
- a log of `onAdd`/`onDrag` hook calls.

Each method is proved against a pure specification function: `Sized`,
`Appended`, `RemoveArena`, `Unpacked`, `Encode` or `Dropped`. The lemmas about
those functions state the layout laws. The divider is a class
(`Layout.Divider`) whose fields carry the drag state across `startDrag`,
`move` and `end`.

Extents are `real`, which is exact. Where the browser would compute NaN (a
share of a zero total, a missing `size`), jQuery ignores the assignment, and
the model leaves the extent unchanged.

Where the design description and the code disagree, the model follows the
code:

- `resize` and `save` start from `getMain`'s window, not from the root.
- Negative extents are not clamped.
- `add` on a pane whose content an earlier `add` wrapped fails after it has
  spent an id and retyped the target. It does not fail before any change.
- `add` on a split window that `load` built goes through. `load` only
  detaches such a window's liner element, and the field stays set. The new
  pane and the wrap replace the window's children. The old children stay in
  the arena with no pane listing them. In the page, the wrap's element is
  never attached there, because the liner it replaces is already detached.
  The extents the model gives the wrap on this path are listed under
  "## Left out".
- `remove` on a parentless pane does nothing rather than failing.
- `end` measures the drag from the first child's current extent.
- With both children fixed, the sizing pass treats the second as the fixed
  one.
- `load`'s fixed-sibling rule leaves no room for the divider bar.
- After `load`, the root window does not list the loaded top window as a
  child.

## Model

| member | source | states |
|---|---|---|
| Panes.Sized | window.js:636-683 | sizing pane `h` by `pixels` changes only extents, only along `dim` and only inside the subtree of `h`; the pane's own extent grows by `pixels` unless it is fixed; the arena stays well-formed |
| Panes.SizedChildren | window.js:641-669 | the recursive half of `size`: extents only, along `dim` only, inside the strict subtree only; with a zero total along the split axis nothing changes |
| Panes.SizedPair | window.js:663-667 | sizing both children in turn moves the first child's extent by `s0` and the second's by `s1` (unless fixed), touching nothing outside their subtrees |
| Panes.SizedLeaf | window.js:671-673 | sizing a leaf grows only that leaf, and not at all when it is fixed |
| Panes.Grown | window.js:671-673 | growing one pane changes no link and no other pane |
| SizingLaws.ShareAlongSplit | window.js:652-667 | along the split axis each child receives `extent / total * pixels` |
| SizingLaws.SharesSumToDelta | window.js:652-667 | the two children's changes along the split axis add up to the whole delta |
| SizingLaws.SharesSum | window.js:652-656 | the two shares add up to the delta |
| SizingLaws.ShareKeepsTiling | window.js:646-673 | a non-fixed pane tiled as `first + second + 5 == parent` stays tiled after a resize along its split axis |
| SizingLaws.RatioSplit | window.js:652-656 | the two ratios of a split sum to one |
| SizingLaws.ZeroTotalKeepsChildren | window.js:652-656 | with children of total extent zero the ratios are NaN: only the pane itself changes |
| SizingLaws.StackAcrossSplit | window.js:663-667 | across the split axis both children receive the full delta, so children spanning a non-fixed parent keep spanning it |
| SizingLaws.FixedSiblingAbsorbs | window.js:646-661 | a fixed child's whole subtree is untouched, the other child takes the entire delta, and a tiled non-fixed parent stays tiled |
| TreeMutator.GrowBeforeHanging | window.js:546-567 | sizing the two unlinked leaves before linking them gives the same arena as linking first |
| TreeMutator.WiredWellFormed | window.js:519-568 | the rewiring of `append` keeps the arena well-formed |
| TreeMutator.Spread | window.js:546-550 | the wrap and the new pane after sizing: the arena grows by exactly two panes |
| TreeMutator.Appended | window.js:511-586 | the arena after `add` has exactly two more panes |
| TreeMutator.SpreadShape | window.js:546-576 | sizing and the divider change extents only, keeping `append`'s links and a well-formed arena |
| TreeMutator.AppendShape | window.js:519-576 | after `append` the target lists the new pane and the wrap (the new pane first exactly for `left`/`top`); both point back at it; it is split along the position's axis and typed `container`; it has lost its id and content but kept its extents and float flag; both children float exactly for a `'width'` split; the wrap has the fresh id and the target's old configuration minus `size`/`position`; nothing else changes |
| TreeMutator.AppendGeometry | window.js:546-576 | with no fixed pane involved, the new pane gets `size` and the wrap the rest, less the 5 px bar on whichever comes first; the target is tiled along the split axis and both children span it across |
| TreeMutator.AppendFloats | window.js:553-564 | after `append` the first child of every split pane still floats exactly for a `'width'` split |
| TreeMutator.Sibling | window.js:593-595 | the sibling `remove` unwraps is the other child listed by the same parent and points back at it |
| TreeMutator.Rewired | window.js:601-621 | relinking keeps the number of panes |
| TreeMutator.RewiredWellFormed | window.js:601-621 | the relinking of `remove` keeps the arena well-formed and re-parents only the sibling |
| TreeMutator.RemoveArena | window.js:588-633 | `remove` keeps the arena well-formed and its number of panes |
| TreeMutator.Refit | window.js:606-607 | the sibling, unless fixed, ends with exactly the given width and height; nothing outside its subtree changes |
| TreeMutator.RewiredPanes | window.js:601-621 | pane by pane: the sibling hangs from the grandparent with the grandparent's float rule, the parent is emptied, the grandparent's slot (found by id) holds the sibling, nothing else changes |
| TreeMutator.RemoveSplice | window.js:588-633 | after `remove` the sibling hangs from the grandparent in the parent's slot, keeps its configuration and children, has the parent's extents unless fixed, and the parent is childless |
| TreeMutator.RemoveKeepsAxes | window.js:601-621 | `remove` changes no split axis, never creates a split, and re-parents only the sibling |
| TreeMutator.RemoveFloats | window.js:610-621 | after `remove` the first child of every split pane still floats exactly for a `'width'` split |
| TreeMutator.RemoveFrame | window.js:588-633 | `remove` touches nothing but the sibling's subtree, the parent and the grandparent |
| TreeMutator.AddThenRemove | window.js:252-271 | removing the pane `add` just created puts the wrap, with the target's content, configuration and extents, in the target's place |
| TreeMutator.RemoveAfterSplit | window.js:588-633 | the same for any arena split as `add` splits |
| TreeMutator.SplitSibling | window.js:593-595 | after a split, `remove` of the new pane finds the target as parent and the wrap as sibling |
| TreeMutator.SplitSlot | window.js:610-615 | after a split, the grandparent's slot that `remove` overwrites is the one holding the target |
| TreeMutator.UnwrapFacts | window.js:601-615 | what `remove` leaves, stated for a given parent and sibling |
| TreeMutator.DragMovesDivider | window.js:826-833 | after a drag an unfixed first child ends exactly at the pointer position; two unfixed children keep their total and so the tiling; the parent is untouched |
| Codec.Encode | window.js:81-102 | `save`'s record of a pane has its configuration and extents, one record per child, and is always a record `load` accepts |
| Codec.EncodeAgree | window.js:81-102 | `save` from a pane reads only panes allocated from it on |
| Codec.Pinned | window.js:162-181 | the fixed-sibling rule keeps the children's configuration, float flag, children and cross-axis extent |
| Codec.PinFixed | window.js:162-181 | the two `forEach` passes over the children compute `Pinned` |
| Codec.PinnedRule | window.js:165-181 | with a fixed child the pair exactly fills the parent's extent, the fixed child keeps its saved extent, and both are pinned with `exact`; without one nothing changes |
| Codec.PinnedKeepsShape | window.js:166-181 | pinning keeps both children binary and as deep as before |
| Codec.LoadedChildren | window.js:161-181 | the children `load` recurses into keep the saved configuration, float flag and children |
| Codec.Rebuilt | window.js:123-195 | the tree `load` builds is a record `save` could have written |
| Codec.RebuiltSameTree | window.js:123-195 | loading keeps every configuration, float flag and branching of the record |
| Codec.RebuiltNodes | window.js:154-154 | `load` creates one window per node of the record |
| Codec.RoundTripUnscaled | window.js:123-186 | loading a saved record without fixed children at scale 1 rebuilds exactly that record |
| Codec.PlainIsBinary | window.js:95-101 | every record `save` writes is one `load` can read |
| Codec.LoadFillsContainer | window.js:114-128 | the top window of a loaded layout has exactly the container's extents |
| Layout.SavedAxes | window.js:91-93 | in a valid manager every split pane, in whatever subtree `save` writes, is read back by `load` with its own split axis |
| Loading.Opened | window.js:124-148 | the window `load` opens for a node has the node's configuration, float flag and extents, hangs from the parent, and holds its liner |
| Loading.Unpacked | window.js:123-195 | `load` of a node adds exactly one window per node of its tree |
| Loading.UnpackedLined | window.js:156-160 | every window `load` creates keeps its liner, split ones included, so `add` can split any of them |
| Loading.UnpackedFloats | window.js:145-161 | in every split window `load` creates, the first child floats exactly when the window is split along `'width'` |
| Loading.UnpackedPrefix | window.js:138-154 | `load` never touches an existing pane and hangs the new window from its parent |
| Loading.UnpackedShape | window.js:138-186 | `load` keeps the arena well-formed |
| Loading.UnpackedOriented | window.js:158-161 | every split window `load` creates has an axis |
| Loading.UnpackedEncodes | window.js:81-195 | `save` of a loaded window gives back the record it was loaded from |
| Loading.JoinedEncodes | window.js:183-186 | a window listing two children that encode as `t0` and `t1` encodes as its fields over `[t0, t1]` |
| Loading.UnpackedKeeps | window.js:138-154 | one pane allocated before a load stays as it was |
| Loading.DividerAtPinned | window.js:166-190 | pinning changes none of the windows that get a divider |
| Loading.DividerAtSameTree | window.js:188-190 | records with the same configurations and branching give the same divider windows |
| Loading.DividedJoined | window.js:183-190 | listing the children splits the window and leaves the children's windows as they were |
| Loading.UnpackedDividers | window.js:183-190 | the windows `load` gives a divider are exactly its split windows not configured `divider: false` |
| Loading.DividersCombine | window.js:183-190 | the divider windows of a split node are its own and those of its two children |
| Layout.Span | window.js:154-154 | the handles `lo .. hi - 1`, in order |
| Layout.Announced | window.js:152-152 | one `onAdd` per window, in order |
| Layout.Registered | window.js:152-154 | registering a window and then its descendants registers them all in pre-order |
| Layout.MainFrom | window.js:312-319 | `getMain`'s search from position `i` yields a pane of the arena |
| Layout.MainOf | window.js:310-322 | `getMain` yields a pane of the arena |
| Layout.MainIsFirstSplit | window.js:310-322 | the main window is the first split window in creation order when there is one, and the first window otherwise |
| Layout.LoadedArena | window.js:123-195 | after `load` the manager is valid with the new windows registered, the old panes untouched, and the new top window under the root |
| Layout.GrownValid | window.js:154-154 | new well-formed panes with axes and first children floating as those axes say, registered as windows, keep the manager valid |
| Layout.LoadedDividers | window.js:188-190 | the divider windows of a load are the split windows of the new part of the arena configured for a bar |
| Layout.SameShapeValid | window.js:636-683 | changing extents only keeps the manager valid |
| Layout.TargetAsWritten | window.js:252-253 | as written, `add` without a target fails |
| Layout.RetypedValid | window.js:526-528 | retyping the target keeps the manager valid |
| Layout.DetachedWellFormed | window.js:522-547 | the two new unlinked leaves keep the arena well-formed |
| Layout.SpreadByParts | window.js:546-567 | sizing and then linking, as `append` does, gives `Spread` |
| Layout.SplitReady | window.js:546-576 | before the divider is built the target is split along the position's axis, and the divider's 5 px complete `Appended` |
| Layout.AppendValid | window.js:252-271 | after `add` the manager is valid (float flags and axes still agreeing), with the wrap and then the new pane registered and the new pane current |
| Layout.RemoveValid | window.js:588-633 | `remove` keeps the manager valid, float flags and axes still agreeing |
| Layout.JoinedDividers | window.js:183-190 | the bars built while loading a split node are those of its children's loads plus its own unless `divider: false`; older bars are kept |
| Layout.DropLaws | window.js:819-844 | a drag without a pointer position changes nothing; otherwise an unfixed first child ends at the pointer position, two unfixed children keep their total and the tiling, and the owner and the cross axis are untouched |
| Layout.Manager.constructor | window.js:199-223 | the root window (id 0, type `root`, permanent) fills the container and is the only window and the current one; `onAdd` is silent when a layout is being loaded |
| Layout.Manager.GetMain | window.js:310-322 | the loop returns `getMain`'s window |
| Layout.Manager.Resize | window.js:325-338 | the main window is sized by the height change, then by the width change; the new size is recorded; the manager stays valid |
| Layout.Manager.Save | window.js:73-105 | `save` returns the record of the main window's subtree |
| Layout.Manager.Traverse | window.js:81-102 | the traversal returns `Encode` of the pane |
| Layout.Manager.Load | window.js:108-196 | after `load` the manager is valid; the scaled tree hangs under the root; the old panes are untouched; one window and one `onAdd` per node, in pre-order; `save` of the new top window gives back the rebuilt record; every new window keeps its liner; a divider at exactly the new split windows configured for one, and every older divider kept |
| Layout.Manager.LoadNode | window.js:123-195 | `traverse` of one node builds `Unpacked`, registers its windows in pre-order and adds their bars |
| Layout.Manager.LoadChildren | window.js:158-191 | a node with children keeps its liner, takes the first child's float as its axis, pins fixed children and loads both |
| Layout.Manager.Descend | window.js:183-191 | both pinned children are loaded in order and the node lists them and gets its bar |
| Layout.Manager.LoadPair | window.js:183-186 | the two recursive `traverse` calls load the children one after the other |
| Layout.Manager.Join | window.js:183-190 | the node lists its two children, and gets a divider exactly when not configured `divider: false` |
| Layout.Manager.Add | window.js:252-271 | `add` spends an id; on a target whose content an earlier `add` wrapped it fails with the target retyped and nothing else changed; otherwise the arena is `Appended`, the wrap and the new pane are registered, the new pane is current, `onAdd` fires unless `silent`, and the target gets a new divider |
| Layout.Manager.Append | window.js:511-586 | `append` as above; the manager is valid once the new pane is registered and current |
| Layout.Manager.Split | window.js:519-576 | the rest of `append` once the target is retyped produces `Appended` and registers the wrap |
| Layout.Manager.Branch | window.js:521-567 | creating, sizing and linking the wrap and the new pane produces `Spread` |
| Layout.Manager.Create | window.js:522-550 | the new pane and the wrap are pushed and sized |
| Layout.Manager.Drag | window.js:826-843 | the drag's change is measured from the first child's extent, the children are resized as `Dropped` says, `onDrag` reports the change, and the manager stays valid |
| Layout.Manager.SizePair | window.js:832-833 | both children sized in turn give `SizedPair` |
| Layout.Manager.Divide | window.js:576-576 | the target gets a fresh divider, which takes 5 px from its first child |
| Layout.Manager.Link | window.js:554-568 | the linking of `append` gives `Hung` |
| Layout.Manager.Remove | window.js:588-633 | `remove` leaves `RemoveArena` and a valid manager; nothing happens without a parent; a parent listing no children fails before any change; a parent without a divider fails after the rewiring; otherwise the parent's divider is dropped |
| Layout.Manager.Splice | window.js:596-607 | the arena half of `remove` gives `RemoveArena` |
| Layout.Manager.Unwrap | window.js:593-621 | the relinking of `remove` gives `Rewired` and returns the sibling |
| Layout.Manager.Size | window.js:636-683 | `size` updates the arena to `Sized` |
| Layout.Manager.SizeChildren | window.js:641-669 | the first half of `size` updates the arena to `SizedChildren` |
| Layout.Manager.Survey | window.js:646-649 | the first `forEach` reads both children's extents and the last fixed child |
| Layout.Manager.ShareOut | window.js:652-667 | the second `forEach` sizes both children by their shares |
| Layout.Divider.constructor | window.js:687-705 | the bar records its owner, orientation and the first child's extent, and takes 5 px from the first child unless `noresize` |
| Layout.Divider.StartDrag | window.js:780-810 | `startDrag` records the owner's offset, shows the indicator at the pointer and binds the handlers |
| Layout.Divider.Move | window.js:812-817 | `move` records the pointer position relative to the offset, and the indicator follows it |
| Layout.Divider.End | window.js:819-844 | `end` on a dissolved owner fails before any change; otherwise it resizes the children as `Manager.Drag` does, removes the indicator and unbinds `mouseup` |
| EditMode.Round | window.js:359-360 | `Math.round` gives the nearest integer, halves upward |
| EditMode.Candidates | window.js:349-356 | the windows offered are exactly the eligible ones, in the order of `windows` (a subsequence of it) |
| EditMode.Classify | window.js:411-446 | the chosen side is one nearest the pointer in aspect-scaled distance; the size is the pointer's distance from that side, and is not negative for a pointer inside the window |
| EditMode.ClassifyAtMostHalf | window.js:411-446 | the new pane never takes more than half of the target along the split axis |

## Left out

- The DOM and jQuery are left out: element creation, CSS classes and styles, the liner element, `getBoundingClientRect`, and the `.width()`/`.height()` setters. Extents are stored reals, and `floating` is a flag.
- `JSON.parse` and `JSON.stringify` are left out. A layout is a `Record` value.
- The plugin bootstrap, `initConfig`, `destroy` and the shared `WindowManager.options` object are left out. Root creation in `initRoot` is the `Manager` constructor.
- Close boxes and the `onRemove` hook fired from their click handler are left out. They are event wiring outside the engine.
- The debounced resize timer is left out. It is timer infrastructure; `Resize` is what runs when it fires.
- The `onAdd` and `onDrag` hooks are recorded as an event log, not called.
- The `selectstart`/`dragstart` suppression is left out.
- The divider's handle and bar elements are left out.
- The `mousemove`/`mouseup` bindings are reduced to the flags `tracking` and `dragging`. `end` unbinds `mousemove` from the bar rather than from the owner, so `tracking` stays set after `end`.
- Layout.Manager.Load: requires a record whose nodes have no children or exactly two, and whose top-level `dimensions` are non-zero. Every record `save` writes is of that form (`Codec.PlainIsBinary`). The source does other things on other records:
  - A node with three or more children: the source loads the first two and silently ignores the rest.
  - A node with one child: it throws on the missing second child. With a fixed first child this happens in the fixed-sibling pass. Otherwise it happens after the first child's whole subtree is built.
  - A zero top-level dimension: it makes the scale infinite or NaN.
- TreeMutator.AppendGeometry: assumes the wrap's element is attached to the page. When `add` splits a window that `load` split, the wrap replaces a liner that is already detached, so its element is never attached. The source measures it as 0 along the split axis at every step: it ends at `-size`, or at `-5` when it comes first and the divider resizes it again from 0. The lemma states target − size (− 5) for it.
- TreeMutator.Appended: gives the wrap the target's extents as its starting point also when the wrap is detached (a target that `load` split). There, the source measures the wrap from 0.
- Layout.Manager.Load: the old panes stay in the arena and in `windows`. The source only empties the root's DOM element and never prunes `windows`.
- EditMode.Classify: requires a window at least one (rounded) pixel wide. The source divides by the rounded half-width, and for a narrower window the aspect ratio is infinite or NaN.
- Edit mode's overlays, block divs and mouse bindings are left out.
- The delete-mode overlay is left out.
- The `mouseup` dispatch of edit mode is left out: the options object it builds and the caught exceptions. The `add` and `remove` it calls are modelled.
- The numbers are exact reals. Floating-point rounding of shares is not modelled.

## Findings

| source | as written | input that shows it | evidently intended | confidence | as-written member | corrected member |
|---|---|---|---|---|---|---|
| window.js:252-253 | `add` without a target passes `this.current` to `append`, which calls `.data('window')` on it; after `initRoot`, `this.current` is a window object, not a jQuery element | `add({position: 'left', size: 100})` with no target, on any manager after construction | split the current window | not executed | Layout.TargetAsWritten | Layout.Manager.Add |
