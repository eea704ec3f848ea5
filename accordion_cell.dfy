/** The accordion table view cell: one row view that carries an `expanded`
    flag, and its default `setExpanded` hook. */
module AccordionCell {

  class Cell {
    /** Whether the row is shown expanded. */
    var expanded: bool

    /** A new cell starts collapsed. */
    constructor()
      ensures !expanded
    {
      expanded := false;
    }

    /** The default hook: store the flag, then invoke the completion once.
        The completion is not a closure here: its single invocation is the
        returned `finished` argument, which the caller feeds to the phase of
        its own work that runs inside the completion. Since nothing follows
        the invocation, the flag the completion observes is the final one. */
    method SetExpanded(value: bool) returns (finished: bool)
      modifies this
      ensures expanded == value
      ensures finished
      ensures old(expanded) == value ==> unchanged(this)
    {
      expanded := value;
      finished := true;
    }
  }
}
