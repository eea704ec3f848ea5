/** The accordion table view controller: it keeps the ordered list of expanded
    index paths and flips cells between expanded and collapsed.

    The table view is not modelled. Its `indexPathForCell` lookup arrives as an
    `Option<IndexPath>` argument, an `as?` downcast that can fail arrives as a
    nullable `Cell?`, and `beginUpdates`/`endUpdates` have no effect on the
    state modelled here. An animated toggle runs in two phases: the part
    before a completion block and the part inside it. The part inside the
    Core Animation transaction's completion block of an animated expand is the
    separate method `ExpandCompletion`, which the host calls when that block
    fires. The part inside the cell's completion of an animated collapse is
    `CollapseCompletion`, which receives the cell's `finished` report. */
module AccordionController {
  import opened IndexPaths
  import opened AccordionCell

  /** The list of expanded index paths after one toggle of a cell whose flag
      read `expanded` when the toggle began and whose index path lookup gave
      `path`. `finished` is what the cell reports to the completion of an
      animated collapse. */
  function ToggledPaths(paths: seq<IndexPath>, path: Option<IndexPath>, expanded: bool,
                        animated: bool, finished: bool): (r: seq<IndexPath>)
    // no index path: nothing changes
    ensures path.None? ==> r == paths
    // expand: every earlier entry stays where it was and the path comes last,
    // whether or not it was already listed
    ensures path.Some? && !expanded ==>
              |r| == |paths| + 1 && r[..|paths|] == paths && r[|paths|] == path.value
    // collapse that completes: exactly one copy of the path, if any, goes away
    ensures path.Some? && expanded && (!animated || finished) ==>
              multiset(r) == multiset(paths) - multiset{path.value}
    // animated collapse reported unfinished: nothing changes
    ensures path.Some? && expanded && animated && !finished ==> r == paths
    // a toggle adds no path other than the toggled one
    ensures |r| <= |paths| + 1
    ensures forall q :: q in r ==> q in paths || (path.Some? && q == path.value)
  {
    match path
    case None => paths
    case Some(p) =>
      if !expanded then
        assert (paths + [p])[..|paths|] == paths;
        paths + [p]
      else if !animated || finished then
        RemoveFirstMultiset(paths, p);
        assert forall q :: q in RemoveFirst(paths, p) ==> multiset(RemoveFirst(paths, p))[q] > 0;
        RemoveFirst(paths, p)
      else paths
  }

  /** A toggle of a cell whose flag mirrors membership keeps a duplicate-free
      list duplicate-free. Afterwards the path is in the list exactly when it
      was absent before, unless an animated collapse was reported unfinished,
      which leaves it in. */
  lemma ToggleKeepsNoDuplicates(paths: seq<IndexPath>, p: IndexPath, animated: bool, finished: bool)
    requires NoDuplicates(paths)
    ensures var after := ToggledPaths(paths, Some(p), p in paths, animated, finished);
            NoDuplicates(after) &&
            (p in after <==> p !in paths || (animated && !finished))
  {
    if p !in paths {
      AppendNoDuplicates(paths, p);
    } else if !animated || finished {
      RemoveFirstNoDuplicates(paths, p);
    }
  }

  /** Two unanimated toggles of a cell whose flag mirrors membership restore
      membership: the list holds the same paths as many times as before, and
      when the cell started collapsed it is exactly the original list. */
  lemma ToggleTwiceRestores(paths: seq<IndexPath>, p: IndexPath, expanded: bool)
    requires expanded == (p in paths)
    ensures var once := ToggledPaths(paths, Some(p), expanded, false, true);
            var twice := ToggledPaths(once, Some(p), !expanded, false, true);
            multiset(twice) == multiset(paths) &&
            (p in twice <==> expanded) &&
            (!expanded ==> twice == paths)
  {
    if !expanded {
      RemoveFirstAppended(paths, p);
    } else {
      var once := RemoveFirst(paths, p);
      RemoveFirstMultiset(paths, p);
      assert multiset(once + [p]) == multiset(once) + multiset{p};
    }
  }

  /** A cell whose flag is still false while its path is already listed (an
      animated expand whose completion block has not fired yet, or a cell not
      resynced) is expanded again on toggle, and the list gains a duplicate:
      nothing guards the append. */
  lemma UnsyncedExpandDuplicates(paths: seq<IndexPath>, p: IndexPath, animated: bool, finished: bool)
    requires p in paths
    ensures !NoDuplicates(ToggledPaths(paths, Some(p), false, animated, finished))
  {
    AppendNoDuplicates(paths, p);
  }

  /** One toggle of a resynced cell: the row at `path` is toggled, with the
      given animation and, for an animated collapse, the cell's `finished`
      report. */
  datatype Toggle = Toggle(path: IndexPath, animated: bool, finished: bool)

  /** The list after a series of toggles, each on a cell whose flag was
      resynced from the list before the toggle. */
  function Replay(paths: seq<IndexPath>, toggles: seq<Toggle>): (r: seq<IndexPath>)
    // each toggle adds at most one entry
    ensures |r| <= |paths| + |toggles|
    // every listed path was listed at the start or is the path of some toggle
    ensures forall q :: q in r ==> q in paths || exists t :: t in toggles && t.path == q
    decreases |toggles|
  {
    if toggles == [] then paths
    else
      var t := toggles[0];
      var next := ToggledPaths(paths, Some(t.path), t.path in paths, t.animated, t.finished);
      assert forall u :: u in toggles[1..] ==> u in toggles;
      Replay(next, toggles[1..])
  }

  /** Toggling only resynced cells never puts a duplicate into a duplicate-free
      list. */
  lemma {:induction false} ReplayKeepsNoDuplicates(paths: seq<IndexPath>, toggles: seq<Toggle>)
    requires NoDuplicates(paths)
    ensures NoDuplicates(Replay(paths, toggles))
    decreases |toggles|
  {
    if toggles != [] {
      var t := toggles[0];
      ToggleKeepsNoDuplicates(paths, t.path, t.animated, t.finished);
      ReplayKeepsNoDuplicates(ToggledPaths(paths, Some(t.path), t.path in paths, t.animated, t.finished), toggles[1..]);
    }
  }

  /** Starting from the empty list a controller is created with, toggling only
      resynced cells keeps the list duplicate-free. */
  lemma {:induction false} ReplayFromEmptyNoDuplicates(toggles: seq<Toggle>)
    ensures NoDuplicates(Replay([], toggles))
  {
    ReplayKeepsNoDuplicates([], toggles);
  }

  class Controller {
    /** The index paths of the expanded rows, in the order they were expanded. */
    var expandedIndexPaths: seq<IndexPath>

    /** A new controller has no expanded rows. */
    constructor()
      ensures expandedIndexPaths == []
    {
      expandedIndexPaths := [];
    }

    /** The cell's flag says whether `p` is in the list. */
    predicate Mirrors(cell: Cell, p: IndexPath)
      reads this, cell
    {
      cell.expanded == (p in expandedIndexPaths)
    }

    /** Expands a collapsed cell and collapses an expanded one. `pending` says
        that an animated expand left its completion block to run:
        the host then calls `ExpandCompletion`. */
    method ToggleCell(cell: Cell, path: Option<IndexPath>, animated: bool) returns (pending: bool)
      modifies this, cell
      ensures expandedIndexPaths == ToggledPaths(old(expandedIndexPaths), path, old(cell.expanded), animated, true)
      ensures cell.expanded == if path.Some? then !old(cell.expanded) && !animated else old(cell.expanded)
      ensures pending <==> path.Some? && !old(cell.expanded) && animated
      ensures path.Some? && !animated && old(NoDuplicates(expandedIndexPaths)) && old(Mirrors(cell, path.value)) ==>
                NoDuplicates(expandedIndexPaths) && Mirrors(cell, path.value)
    {
      if !cell.expanded {
        pending := ExpandCell(cell, path, animated);
      } else {
        CollapseCell(cell, path, animated);
        pending := false;
      }
      if path.Some? && old(Mirrors(cell, path.value)) && old(NoDuplicates(expandedIndexPaths)) {
        ToggleKeepsNoDuplicates(old(expandedIndexPaths), path.value, animated, true);
      }
    }

    /** The table view is about to display `cell` (null when it is not an
        accordion cell) at `indexPath`: the cell's flag is set from the list.
        The list does not change, so a second call changes nothing. */
    method WillDisplayCell(cell: Cell?, indexPath: IndexPath)
      modifies cell
      ensures cell != null ==> Mirrors(cell, indexPath)
      ensures expandedIndexPaths == old(expandedIndexPaths)
    {
      if cell != null {
        cell.expanded := indexPath in expandedIndexPaths;
      }
    }

    /** The user selected the row at `indexPath`; `cell` is the accordion cell
        displayed there, or null when there is none. The row is toggled with
        animation, and the lookup of the cell's index path gives `indexPath`. */
    method DidSelectRow(cell: Cell?, indexPath: IndexPath) returns (pending: bool)
      modifies this, cell
      ensures cell == null ==> expandedIndexPaths == old(expandedIndexPaths) && !pending
      ensures cell != null ==>
                expandedIndexPaths == ToggledPaths(old(expandedIndexPaths), Some(indexPath), old(cell.expanded), true, true) &&
                !cell.expanded &&
                (pending <==> !old(cell.expanded))
    {
      pending := false;
      if cell != null {
        pending := ToggleCell(cell, Some(indexPath), true);
      }
    }

    /** Unanimated: the flag is set and the path appended. Animated: the path
        is appended now and the flag is set only when the completion block
        runs (`pending`). The append never checks for a path already listed. */
    method ExpandCell(cell: Cell, path: Option<IndexPath>, animated: bool) returns (pending: bool)
      modifies this, cell
      ensures path.None? ==> expandedIndexPaths == old(expandedIndexPaths) && cell.expanded == old(cell.expanded)
      ensures path.Some? ==> expandedIndexPaths == old(expandedIndexPaths) + [path.value]
      ensures path.Some? ==> cell.expanded == (!animated || old(cell.expanded))
      ensures pending <==> path.Some? && animated
    {
      pending := false;
      match path {
        case None =>
        case Some(p) =>
          if !animated {
            cell.expanded := true;
            expandedIndexPaths := expandedIndexPaths + [p];
          } else {
            // The completion block is registered before the append and runs
            // after the transaction commits.
            pending := true;
            expandedIndexPaths := expandedIndexPaths + [p];
          }
      }
    }

    /** The completion block of an animated expand: the cell is told to show
        itself expanded; its own completion does nothing. */
    method ExpandCompletion(cell: Cell)
      modifies cell
      ensures cell.expanded
      ensures expandedIndexPaths == old(expandedIndexPaths)
    {
      var finished := cell.SetExpanded(true);
    }

    /** Unanimated: the flag is cleared and the first occurrence of the path
        removed. Animated: the cell is told to collapse, and the path is removed
        inside the cell's completion, so with the default cell it is removed
        after the flag is already false. */
    method CollapseCell(cell: Cell, path: Option<IndexPath>, animated: bool)
      modifies this, cell
      ensures expandedIndexPaths == if path.Some? then RemoveFirst(old(expandedIndexPaths), path.value) else old(expandedIndexPaths)
      ensures cell.expanded == (path.None? && old(cell.expanded))
    {
      match path {
        case None =>
        case Some(p) =>
          if !animated {
            cell.expanded := false;
            RemoveExpanded(p);
          } else {
            var finished := cell.SetExpanded(false);
            CollapseCompletion(cell, p, finished);
          }
      }
    }

    /** The cell's completion of an animated collapse: the first occurrence of
        `p` is removed only when the cell reports the change finished. The
        default `SetExpanded` writes the flag before it reports, so the
        completion runs on a cell that already reads collapsed, and the path
        leaves the list only after the flag is false. */
    method CollapseCompletion(cell: Cell, p: IndexPath, finished: bool)
      requires !cell.expanded
      modifies this
      ensures expandedIndexPaths == if finished then RemoveFirst(old(expandedIndexPaths), p) else old(expandedIndexPaths)
      ensures !cell.expanded
    {
      if finished {
        RemoveExpanded(p);
      }
    }

    /** Looks up the first occurrence of `p` and deletes it when there is one. */
    method RemoveExpanded(p: IndexPath)
      modifies this
      ensures expandedIndexPaths == RemoveFirst(old(expandedIndexPaths), p)
    {
      var index := FirstIndex(expandedIndexPaths, p);
      match index {
        case None =>
        case Some(i) =>
          RemoveAtFirstIndex(expandedIndexPaths, p, i);
          expandedIndexPaths := expandedIndexPaths[..i] + expandedIndexPaths[i + 1..];
      }
    }
  }

  /** An unanimated expand of the row at (0, 2) on a new controller, then an
      unanimated collapse of it. */
  method ExpandThenCollapseScenario()
    returns (afterExpand: seq<IndexPath>, flagAfterExpand: bool,
             afterCollapse: seq<IndexPath>, flagAfterCollapse: bool)
    ensures afterExpand == [IndexPath(0, 2)] && flagAfterExpand
    ensures afterCollapse == [] && !flagAfterCollapse
  {
    var controller := new Controller();
    var cell := new Cell();
    var p := IndexPath(0, 2);
    var pending := controller.ToggleCell(cell, Some(p), false);
    afterExpand, flagAfterExpand := controller.expandedIndexPaths, cell.expanded;
    pending := controller.ToggleCell(cell, Some(p), false);
    afterCollapse, flagAfterCollapse := controller.expandedIndexPaths, cell.expanded;
  }

  /** One recycled cell displayed first at (0, 1), which is listed, and then at
      (0, 5), which is not. */
  method RecycledCellScenario() returns (flagAtListed: bool, flagAtUnlisted: bool)
    ensures flagAtListed && !flagAtUnlisted
  {
    var controller := new Controller();
    controller.expandedIndexPaths := [IndexPath(0, 1), IndexPath(0, 2)];
    var cell := new Cell();
    controller.WillDisplayCell(cell, IndexPath(0, 1));
    flagAtListed := cell.expanded;
    controller.WillDisplayCell(cell, IndexPath(0, 5));
    flagAtUnlisted := cell.expanded;
  }

  /** The row at (0, 2) is selected twice before the completion block of the
      first animated expand runs: the cell still reads collapsed, so both
      selections expand it and the path is listed twice. */
  method OverlappingExpandScenario() returns (paths: seq<IndexPath>, flag: bool)
    ensures paths == [IndexPath(0, 2), IndexPath(0, 2)] && flag
  {
    var controller := new Controller();
    var cell := new Cell();
    var p := IndexPath(0, 2);
    var first := controller.DidSelectRow(cell, p);
    var second := controller.DidSelectRow(cell, p);
    controller.ExpandCompletion(cell);
    controller.ExpandCompletion(cell);
    paths, flag := controller.expandedIndexPaths, cell.expanded;
  }
}
