/** The few GameWindow statics the core reads and writes: the unsaved-changes
    flag, the new-load flag and the arrays a reset returns the board to. */
module Window {
  import opened Conversions

  class WindowState {
    /** isChanged_: there are moves not yet saved. */
    var changed: bool
    var isNewLoad: bool
    var resetPositions: seq<Int32>
    var resetRotations: seq<Int32>

    constructor()
      ensures !changed && !isNewLoad && resetPositions == [] && resetRotations == []
    {
      changed := false;
      isNewLoad := false;
      resetPositions := [];
      resetRotations := [];
    }

    /** setChanged. */
    method SetChanged(value: bool)
      modifies this
      ensures changed == value
      ensures isNewLoad == old(isNewLoad)
      ensures resetPositions == old(resetPositions) && resetRotations == old(resetRotations)
    {
      changed := value;
    }
  }
}
