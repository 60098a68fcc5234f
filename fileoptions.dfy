/** Loading a saved game onto the board (FileOptions.loadOption and
    arrangePieces).

    The board has 32 containers: tiles 0..15 and the grid cells, which take
    positions 16..31 (`Container`). Piece j of the registry moves to the
    container its saved position names and takes its saved rotation. */
module FileOptions {
  import opened Conversions
  import opened Board
  import Clock
  import Window

  const PIECES: nat := 16
  const CONTAINERS: nat := 32

  /** GameWindow's load list: position i < 16 is tile i, position i >= 16 is
      grid cell i - 16. */
  function Container(i: nat, cells: seq<Cell>): (p: Parent)
    requires i < CONTAINERS && |cells| == PIECES
    ensures i < PIECES ==> p == InTile(i)
    ensures PIECES <= i ==> p == InCell(cells[i - PIECES])
  {
    if i < PIECES then InTile(i) else InCell(cells[i - PIECES])
  }

  /** With the grid cells numbered 16..31, a piece placed in container i
      reports position i. */
  lemma ContainerPosition(i: nat, cells: seq<Cell>)
    requires i < CONTAINERS && |cells| == PIECES
    requires forall k :: 0 <= k < PIECES ==> cells[k].id == PIECES + k
    ensures PositionOf(Container(i, cells)) == Some(i as Int32)
  {
  }

  /** Whether a loaded position names one of the 32 containers. */
  predicate OnBoard(position: Int32)
  {
    0 <= position < CONTAINERS
  }

  /** The sixteen pieces of the registry are distinct objects. */
  predicate DistinctPieces(contents: seq<Content>)
    requires |contents| >= PIECES
  {
    forall a, b :: 0 <= a < b < PIECES ==> contents[a] != contents[b]
  }

  /** The RawFileHandler statics loadOption and arrangePieces consult. Their
      accessors are not part of this model; their values are plain fields. */
  class HandlerStatics {
    var mazeFileCheck: bool
    var defaultCheck: bool
    var hexCheck: string
    var loadTime: Int64

    constructor(mazeFileCheck: bool, defaultCheck: bool, hexCheck: string, loadTime: Int64)
      ensures this.mazeFileCheck == mazeFileCheck && this.defaultCheck == defaultCheck
      ensures this.hexCheck == hexCheck && this.loadTime == loadTime
    {
      this.mazeFileCheck := mazeFileCheck;
      this.defaultCheck := defaultCheck;
      this.hexCheck := hexCheck;
      this.loadTime := loadTime;
    }
  }

  /** Whether arrangePieces gets to piece j. With sixteen or more loaded
      positions it visits every piece whose position is on the board. With
      N < 16 its pass for container 0 reads newPositions[N], past the end of
      the array, and throws: only the pieces before N whose position is 0
      have moved by then. */
  predicate Placed(positions: seq<Int32>, j: nat)
  {
    j < |positions| && OnBoard(positions[j]) && (|positions| >= PIECES || positions[j] == 0)
  }

  /** One pass of arrangePieces' outer loop: every piece whose loaded
      position is container i moves there and takes its loaded rotation.
      `complete` is false when the pass runs past the end of `positions`,
      where the source throws ArrayIndexOutOfBoundsException. */
  method PlaceInto(i: nat, positions: seq<Int32>, rotations: seq<Int32>,
                   contents: seq<Content>, cells: seq<Cell>)
    returns (complete: bool)
    requires i < CONTAINERS && |contents| >= PIECES && |cells| == PIECES && DistinctPieces(contents)
    requires forall j :: 0 <= j < PIECES && j < |positions| && positions[j] == i ==> j < |rotations|
    modifies set j | 0 <= j < PIECES :: contents[j]
    ensures complete <==> |positions| >= PIECES
    ensures forall k :: 0 <= k < PIECES ==>
      contents[k].parent == (if k < |positions| && positions[k] == i then Container(i, cells) else old(contents[k].parent))
    ensures forall k :: 0 <= k < PIECES ==>
      contents[k].theta == (if k < |positions| && positions[k] == i then rotations[k] else old(contents[k].theta))
    ensures forall k :: 0 <= k < PIECES ==>
      contents[k].defaultRotation == old(contents[k].defaultRotation) && contents[k].lines == old(contents[k].lines)
  {
    for j := 0 to PIECES
      invariant j <= |positions|
      invariant forall k :: 0 <= k < PIECES ==>
        contents[k].parent ==
          (if k < j && positions[k] == i then Container(i, cells) else old(contents[k].parent))
      invariant forall k :: 0 <= k < PIECES ==>
        contents[k].theta == (if k < j && positions[k] == i then rotations[k] else old(contents[k].theta))
      invariant forall k :: 0 <= k < PIECES ==>
        contents[k].defaultRotation == old(contents[k].defaultRotation) && contents[k].lines == old(contents[k].lines)
    {
      if j >= |positions| {
        return false;
      }
      if positions[j] == i {
        var loadContent := contents[j];
        loadContent.SetSavedRotation(rotations[j]);
        loadContent.MoveTo(Container(i, cells));
      }
    }
    return true;
  }

  /** arrangePieces. `positions` and `rotations` are the handler's
      getTileIds and getTileRotations for the chosen file. Every piece j it
      gets to (`Placed`) moves into the container its position names and
      takes rotation `rotations[j]`, its default rotation and segments kept;
      the others stay as they were. When it runs to the end (`arranged`,
      exactly when there are at least sixteen positions) the reset arrays
      become the loaded arrays and the clock is set to the loaded time and
      paused; when it throws, the clock and the window are untouched. */
  method ArrangePieces(positions: seq<Int32>, rotations: seq<Int32>, loadTime: Int64,
                       contents: seq<Content>, cells: seq<Cell>,
                       clock: Clock.Clock, window: Window.WindowState)
    returns (arranged: bool)
    requires |contents| >= PIECES && |cells| == PIECES
    requires forall j :: 0 <= j < PIECES && j < |positions| && OnBoard(positions[j]) ==> j < |rotations|
    requires DistinctPieces(contents)
    modifies set j | 0 <= j < PIECES :: contents[j]
    modifies clock, window
    ensures arranged <==> |positions| >= PIECES
    ensures forall j :: 0 <= j < PIECES ==>
      contents[j].parent == (if Placed(positions, j) then Container(positions[j], cells) else old(contents[j].parent))
    ensures forall j :: 0 <= j < PIECES ==>
      contents[j].theta == (if Placed(positions, j) then rotations[j] else old(contents[j].theta))
    ensures forall j :: 0 <= j < PIECES ==>
      contents[j].defaultRotation == old(contents[j].defaultRotation) && contents[j].lines == old(contents[j].lines)
    ensures arranged ==>
      window.isNewLoad && window.changed == old(window.changed) &&
      window.resetPositions == positions && window.resetRotations == rotations &&
      clock.capturedTime == loadTime && !clock.isGoTime
    ensures !arranged ==> unchanged(clock, window)
  {
    for i := 0 to CONTAINERS
      invariant i > 0 ==> |positions| >= PIECES
      invariant forall j :: 0 <= j < PIECES ==>
        contents[j].parent ==
          (if j < |positions| && 0 <= positions[j] < i then Container(positions[j], cells) else old(contents[j].parent))
      invariant forall j :: 0 <= j < PIECES ==>
        contents[j].theta == (if j < |positions| && 0 <= positions[j] < i then rotations[j] else old(contents[j].theta))
      invariant forall j :: 0 <= j < PIECES ==>
        contents[j].defaultRotation == old(contents[j].defaultRotation) && contents[j].lines == old(contents[j].lines)
      invariant unchanged(clock, window)
    {
      var complete := PlaceInto(i, positions, rotations, contents, cells);
      if !complete {
        return false;
      }
    }
    window.isNewLoad := true;
    window.resetRotations := rotations;
    window.resetPositions := positions;
    clock.SetCurrentTime(loadTime);
    clock.SetGoTime(false);
    return true;
  }

  /** The bad-file wipe's removeAll on container `p`: every registered piece
      sitting in `p` loses its parent. */
  method RemoveAll(p: Parent, contents: seq<Content>)
    requires |contents| >= PIECES && DistinctPieces(contents)
    modifies set j | 0 <= j < PIECES :: contents[j]
    ensures forall j :: 0 <= j < PIECES ==>
      contents[j].parent == (if old(contents[j].parent) == p then NoParent else old(contents[j].parent))
    ensures forall j :: 0 <= j < PIECES ==>
      contents[j].theta == old(contents[j].theta) && contents[j].defaultRotation == old(contents[j].defaultRotation) &&
      contents[j].lines == old(contents[j].lines)
  {
    for j := 0 to PIECES
      invariant forall k :: 0 <= k < PIECES ==>
        contents[k].parent == (if k < j && old(contents[k].parent) == p then NoParent else old(contents[k].parent))
      invariant forall k :: 0 <= k < PIECES ==>
        contents[k].theta == old(contents[k].theta) && contents[k].defaultRotation == old(contents[k].defaultRotation) &&
        contents[k].lines == old(contents[k].lines)
    {
      if contents[j].parent == p {
        contents[j].MoveTo(NoParent);
      }
    }
  }

  /** Whether a parent is one of the first `n` tiles or the first `n` grid cells. */
  predicate AmongFirst(p: Parent, cells: seq<Cell>, n: nat)
    requires n <= |cells|
  {
    (p.InTile? && 0 <= p.tilePosition < n) || (p.InCell? && p.cell in cells[..n])
  }

  /** The wipe of loadOption's bad-file branch: all sixteen tiles and cells
      are emptied. */
  method WipeBoard(contents: seq<Content>, cells: seq<Cell>)
    requires |contents| >= PIECES && |cells| == PIECES && DistinctPieces(contents)
    modifies set j | 0 <= j < PIECES :: contents[j]
    ensures forall j :: 0 <= j < PIECES ==>
      contents[j].parent == (if AmongFirst(old(contents[j].parent), cells, PIECES) then NoParent else old(contents[j].parent))
    ensures forall j :: 0 <= j < PIECES ==>
      contents[j].theta == old(contents[j].theta) && contents[j].defaultRotation == old(contents[j].defaultRotation) &&
      contents[j].lines == old(contents[j].lines)
  {
    for i := 0 to PIECES
      invariant forall k :: 0 <= k < PIECES ==>
        contents[k].parent == (if AmongFirst(old(contents[k].parent), cells, i) then NoParent else old(contents[k].parent))
      invariant forall k :: 0 <= k < PIECES ==>
        contents[k].theta == old(contents[k].theta) && contents[k].defaultRotation == old(contents[k].defaultRotation) &&
        contents[k].lines == old(contents[k].lines)
    {
      assert cells[..i + 1] == cells[..i] + [cells[i]];
      RemoveAll(InTile(i), contents);
      RemoveAll(InCell(cells[i]), contents);
    }
    assert cells[..PIECES] == cells;
  }

  datatype LoadOutcome = Cancelled | Wiped | DefinitionKept | Arranged | Aborted

  /** loadOption after the file dialog: `approved` is whether a file was
      chosen. A bad file wipes the board and sets the maze-file check; a
      definition file (hex check CAFEBEEF) returns before arrangePieces, leaving
      the board as it was; any other file goes to arrangePieces, which ends
      normally (Arranged) or throws on a save of fewer than sixteen pieces
      (Aborted). */
  method LoadOption(approved: bool, statics: HandlerStatics,
                    positions: seq<Int32>, rotations: seq<Int32>,
                    contents: seq<Content>, cells: seq<Cell>,
                    clock: Clock.Clock, window: Window.WindowState)
    returns (outcome: LoadOutcome)
    requires |contents| >= PIECES && |cells| == PIECES && DistinctPieces(contents)
    requires approved && !(!statics.mazeFileCheck && statics.defaultCheck) && statics.hexCheck != "CAFEBEEF" ==>
      forall j :: 0 <= j < PIECES && j < |positions| && OnBoard(positions[j]) ==> j < |rotations|
    modifies set j | 0 <= j < PIECES :: contents[j]
    modifies statics, clock, window
    ensures outcome == (if !approved then Cancelled
                        else if !old(statics.mazeFileCheck) && old(statics.defaultCheck) then Wiped
                        else if old(statics.hexCheck) == "CAFEBEEF" then DefinitionKept
                        else if |positions| >= PIECES then Arranged
                        else Aborted)
    ensures outcome == Wiped ==>
      statics.mazeFileCheck && statics.defaultCheck == old(statics.defaultCheck) &&
      statics.hexCheck == old(statics.hexCheck) && statics.loadTime == old(statics.loadTime) &&
      unchanged(clock, window) &&
      (forall j :: 0 <= j < PIECES ==>
        contents[j].parent == (if AmongFirst(old(contents[j].parent), cells, PIECES) then NoParent else old(contents[j].parent)) &&
        contents[j].theta == old(contents[j].theta) && contents[j].defaultRotation == old(contents[j].defaultRotation) &&
        contents[j].lines == old(contents[j].lines))
    ensures outcome == Arranged || outcome == Aborted ==>
      forall j :: 0 <= j < PIECES ==>
        contents[j].parent == (if Placed(positions, j) then Container(positions[j], cells) else old(contents[j].parent)) &&
        contents[j].theta == (if Placed(positions, j) then rotations[j] else old(contents[j].theta)) &&
        contents[j].defaultRotation == old(contents[j].defaultRotation) && contents[j].lines == old(contents[j].lines)
    ensures outcome == Arranged ==>
      window.resetPositions == positions && window.resetRotations == rotations && window.isNewLoad &&
      window.changed == old(window.changed) && clock.capturedTime == old(statics.loadTime) && !clock.isGoTime
    ensures outcome == Aborted ==> unchanged(clock, window)
    ensures outcome == Cancelled || outcome == DefinitionKept ==>
      unchanged(statics, clock, window) && forall j :: 0 <= j < PIECES ==> unchanged(contents[j])
    ensures outcome != Wiped ==> unchanged(statics)
  {
    if !approved {
      return Cancelled;
    }
    if !statics.mazeFileCheck && statics.defaultCheck {
      WipeBoard(contents, cells);
      statics.mazeFileCheck := true;
      return Wiped;
    }
    if statics.hexCheck == "CAFEBEEF" {
      return DefinitionKept;
    }
    var arranged := ArrangePieces(positions, rotations, statics.loadTime, contents, cells, clock, window);
    if arranged {
      return Arranged;
    }
    return Aborted;
  }
}
