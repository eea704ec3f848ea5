# AEAccordion expansion bookkeeping, in Dafny

AEAccordion adds an accordion effect to a UIKit table view. A row's cell is
either expanded or collapsed. Every cell carries an `expanded` flag. The
controller keeps `expandedIndexPaths`, the ordered list of the index paths
of the rows that are expanded. This model covers that bookkeeping:

- what toggling a cell does to the flag and to the list, with and without
  animation;
- how a cell's flag is resynced from the list when the table view displays
  it;
- the default `setExpanded(_:withCompletion:)` of the cell.

Files:

- `index_paths.dfy`, module `IndexPaths`:
  - `IndexPath` is a `(section, row)` pair.
  - `FirstIndex` is the array `indexOf` lookup.
  - `RemoveFirst` removes the first occurrence of a path.
  - `NoDuplicates` says no path occurs twice.
  - Lemmas relate these to append and removal.
- `accordion_cell.dfy`, module `AccordionCell`: class `Cell` with its
  `expanded` field and the default `SetExpanded`.
- `accordion_controller.dfy`, module `AccordionController`:
  - class `Controller`, which holds `expandedIndexPaths: seq<IndexPath>`, and
    its methods;
  - `ToggledPaths`, a function on values giving the list after one toggle,
    which `ToggleCell`'s postcondition uses;
  - `Replay`, which applies a series of toggles;
  - lemmas on duplicate-freedom and on toggling twice;
  - three client methods that replay concrete scenarios through the
    methods' contracts.

How the pieces outside the core are represented:

- `tableView.indexPathForCell(cell)` becomes an `Option<IndexPath>` argument.
- The `as? AEAccordionTableViewCell` downcasts become a nullable `Cell?`.
  Null stands for a cell of another class.
- `beginUpdates`/`endUpdates` change nothing modelled.
- Completion closures become explicit phases:
  - The animated expand's Core Animation completion block is the method
    `ExpandCompletion`. `ToggleCell`, `ExpandCell` and `DidSelectRow` return
    `pending` when that block is outstanding, and the host calls
    `ExpandCompletion` when it fires.
  - The completion an animated collapse hands to the cell is the method
    `CollapseCompletion(cell, p, finished)`. It requires the cell to read
    collapsed already, which the default `SetExpanded` guarantees.
  - The cell's `SetExpanded` returns the `finished` value it passes to its
    completion. It returns once, so the completion runs once, and it returns
    after the flag is written.

`expandCell` appends without checking whether the path is already listed
(`AEAccordion/AEAccordionTableViewController.swift` lines 68 and 79), so the
list can hold a path twice:

- `OverlappingExpandScenario` shows how: two selections of a row before the
  first expand's completion block runs.
- Duplicate-freedom is kept when each toggled cell's flag mirrors
  membership, as `willDisplayCell` arranges (`ReplayKeepsNoDuplicates`,
  `ReplayFromEmptyNoDuplicates`).
- Toggling a cell that reads collapsed while its path is listed always adds
  a duplicate (`UnsyncedExpandDuplicates`).
- Nothing guards against overlapping animated toggles of the same row.

## Model

| member | source | states |
|---|---|---|
| `IndexPaths.FirstIndex` | AEAccordion/AEAccordionTableViewController.swift:91 | `indexOf`: None exactly when the path is absent; otherwise an in-range index holding the path with no earlier occurrence |
| `IndexPaths.RemoveFirst` | AEAccordion/AEAccordionTableViewController.swift:91-93 | removing the first occurrence: the list is unchanged when the path is absent and one shorter when it is present |
| `IndexPaths.RemoveFirstMultiset` | AEAccordion/AEAccordionTableViewController.swift:91-93 | removing the first occurrence takes away exactly one copy of the path, if any, and keeps every other entry as often as it occurred |
| `IndexPaths.RemoveAtFirstIndex` | AEAccordion/AEAccordionTableViewController.swift:98-100 | `removeAtIndex` at the index of the first occurrence (the one `indexOf` finds) equals `RemoveFirst`: the entries before and after keep their relative order |
| `IndexPaths.AppendNoDuplicates` | AEAccordion/AEAccordionTableViewController.swift:68 | after an append the list is duplicate-free if and only if it was duplicate-free and the path was absent |
| `IndexPaths.RemoveFirstNoDuplicates` | AEAccordion/AEAccordionTableViewController.swift:89-93 | removing from a duplicate-free list keeps it duplicate-free and leaves the path absent |
| `IndexPaths.RemoveFirstAppended` | AEAccordion/AEAccordionTableViewController.swift:64-106 | appending an absent path and then removing it gives back the original list exactly |
| `AccordionCell.Cell.constructor` | AEAccordion/AEAccordionTableViewCell.swift:37 | a new cell is collapsed |
| `AccordionCell.Cell.SetExpanded` | AEAccordion/AEAccordionTableViewCell.swift:41-44 | the flag becomes the given value, the completion is reported once with `finished == true` after the write, and setting the current value changes nothing |
| `AccordionController.Controller.constructor` | AEAccordion/AEAccordionTableViewController.swift:36 | a new controller's list is empty |
| `AccordionController.Controller.ToggleCell` | AEAccordion/AEAccordionTableViewController.swift:40-46 | a collapsed cell is expanded and an expanded one collapsed. The list becomes `ToggledPaths` of the old list. The flag flips when unanimated, and when animated it ends false. A pending completion block exists exactly after an animated expand. An unanimated toggle from a mirrored, duplicate-free state keeps both |
| `AccordionController.Controller.WillDisplayCell` | AEAccordion/AEAccordionTableViewController.swift:50-54 | an accordion cell's flag becomes list membership of the displayed path, and the list is unchanged (so a repeat call is a no-op); other cells are untouched |
| `AccordionController.Controller.DidSelectRow` | AEAccordion/AEAccordionTableViewController.swift:56-60 | selecting a row showing an accordion cell toggles it animated; otherwise nothing changes |
| `AccordionController.Controller.ExpandCell` | AEAccordion/AEAccordionTableViewController.swift:64-85 | with a known index path the path is appended at the end even if already listed. Unanimated, the flag becomes true. Animated, the flag stays as it was and the completion block is pending. With no index path nothing changes |
| `AccordionController.Controller.ExpandCompletion` | AEAccordion/AEAccordionTableViewController.swift:72-76 | the completion block of an animated expand leaves the cell expanded and the list unchanged |
| `AccordionController.Controller.CollapseCell` | AEAccordion/AEAccordionTableViewController.swift:87-106 | with a known index path the flag ends false and the first occurrence of the path is removed (the list is unchanged if it is absent). With no index path nothing changes |
| `AccordionController.Controller.CollapseCompletion` | AEAccordion/AEAccordionTableViewController.swift:95-103 | runs only on a cell that already reads collapsed (`CollapseCell` discharges this from the default `SetExpanded`, which writes the flag before it reports). The list changes only when the cell reports `finished`, and then loses exactly the first occurrence of the path |
| `AccordionController.ToggledPaths` | AEAccordion/AEAccordionTableViewController.swift:40-106 | the list after one toggle. With no index path nothing changes. An expand keeps every earlier entry and puts the path last, even if already listed. A collapse that completes takes away exactly one copy of the path. An animated collapse reported unfinished changes nothing. No path other than the toggled one is ever added |
| `AccordionController.Replay` | AEAccordion/AEAccordionTableViewController.swift:40-106 | the list after a series of toggles of resynced cells: each toggle adds at most one entry, and every listed path was listed at the start or is the path of some toggle |
| `AccordionController.Controller.RemoveExpanded` | AEAccordion/AEAccordionTableViewController.swift:91-93 | looking up `indexOf` and deleting at that index leaves `RemoveFirst` of the old list |
| `AccordionController.ToggleKeepsNoDuplicates` | AEAccordion/AEAccordionTableViewController.swift:40-106 | a toggle of a cell whose flag mirrors membership keeps the list duplicate-free. Afterwards the path is listed exactly when it was not, except after an animated collapse reported unfinished |
| `AccordionController.ToggleTwiceRestores` | AEAccordion/AEAccordionTableViewController.swift:40-46 | two unanimated toggles from a mirrored state restore membership and the multiset of the list, and the list itself when the cell started collapsed |
| `AccordionController.UnsyncedExpandDuplicates` | AEAccordion/AEAccordionTableViewController.swift:64-85 | toggling a cell that reads collapsed while its path is listed always produces a duplicate |
| `AccordionController.ReplayKeepsNoDuplicates` | AEAccordion/AEAccordionTableViewController.swift:40-106 | any series of toggles of resynced cells keeps a duplicate-free list duplicate-free |
| `AccordionController.ReplayFromEmptyNoDuplicates` | AEAccordion/AEAccordionTableViewController.swift:36 | from the initial empty list, toggles of resynced cells never produce a duplicate |
| `AccordionController.ExpandThenCollapseScenario` | AEAccordion/AEAccordionTableViewController.swift:64-93 | from `[]`, an unanimated expand of (0, 2) gives `[(0, 2)]` with the flag set; collapsing it gives `[]` with the flag cleared |
| `AccordionController.RecycledCellScenario` | AEAccordion/AEAccordionTableViewController.swift:50-54 | with `[(0, 1), (0, 2)]` listed, one cell displayed at (0, 1) reads expanded and then at (0, 5) reads collapsed |
| `AccordionController.OverlappingExpandScenario` | AEAccordion/AEAccordionTableViewController.swift:56-82 | two selections of (0, 2) before the first expand's completion block runs list the path twice |

## Left out

- Row heights: the subclass computes them in `heightForRowAtIndexPath` from
  the list. That code is not part of this model.
- The animation itself: Core Animation transaction timing and the batched
  `beginUpdates`/`endUpdates` height pass. The model keeps only the order in
  which the two phases run.
- Subclass overrides of the `expanded` setter and of `setExpanded`. These do
  visual work. Only the default `setExpanded` is modelled. A subclass can
  report `finished == false` or report later, and `CollapseCompletion` takes
  `finished` as an argument for that case.
- Capture of `cell` by the expand completion block: `ExpandCompletion` is
  handed the same cell. Whether the table view has recycled that cell in the
  meantime is not modelled.
- `DidSelectRow`: assumes the table view's `indexPathForCell` gives back the
  selected index path for the cell it has just returned from
  `cellForRowAtIndexPath`.
- Index path equality is modelled as equality of the `(section, row)` pair.
  That is how `NSIndexPath` equality behaves for two-level paths.
- Threads: everything runs on the main thread, so there is no concurrency to
  model.
