/** The movable pieces and the grid cells that hold them.

    A Content is a piece: it carries its segments, its current quarter-turn
    count `theta`, the rotation it was dealt (`defaultRotation`) and the
    container it sits in. A Cell is one of the sixteen grid containers and
    owns an id handed out from a counter that starts at 16. The Java classes
    keep those counters in static fields; here each is an object passed to the
    constructors that advance it. */
module Board {
  import opened Conversions
  import opened MazeFormat

  datatype Option<T> = None | Some(value: T)

  // ------------------------------------------------------------------ cells

  /** Cell.positionNumber_: the id the next Cell receives. */
  class CellCounter {
    var next: Int32

    constructor()
      ensures next == 16
    {
      next := 16;
    }
  }

  class Cell {
    /** generatedCellId_; a constant, since nothing reassigns it after construction. */
    const id: Int32

    constructor(counter: CellCounter)
      modifies counter
      ensures id == old(counter.next)
      ensures counter.next == Wrap32(old(counter.next) + 1)
    {
      id := counter.next;
      counter.next := Wrap32(counter.next + 1);
    }
  }

  /** Adding to a wrapped value wraps like adding to the original. */
  lemma Wrap32Add(x: int, d: int)
    ensures Wrap32(Wrap32(x) + d) == Wrap32(x + d)
  {
    var w := Wrap32(x);
    var r1, r2 := Wrap32(w + d), Wrap32(x + d);
    var a, b, c := r1 - w - d, w - x, r2 - x - d;
    assert a == (a / 0x1_0000_0000) * 0x1_0000_0000;
    assert b == (b / 0x1_0000_0000) * 0x1_0000_0000;
    assert c == (c / 0x1_0000_0000) * 0x1_0000_0000;
    var k := a / 0x1_0000_0000 + b / 0x1_0000_0000 - c / 0x1_0000_0000;
    assert r1 - r2 == k * 0x1_0000_0000;
  }

  /** Wrapped ids fewer than 2^32 steps apart differ. */
  lemma WrappedIdsDistinct(start: int, i: nat, j: nat)
    requires i < j < 0x1_0000_0000
    ensures Wrap32(start + i) != Wrap32(start + j)
  {
    var a := Wrap32(start + i) - (start + i);
    var b := Wrap32(start + j) - (start + j);
    assert a == (a / 0x1_0000_0000) * 0x1_0000_0000;
    assert b == (b / 0x1_0000_0000) * 0x1_0000_0000;
    var k := a / 0x1_0000_0000 - b / 0x1_0000_0000;
    assert Wrap32(start + i) - Wrap32(start + j) == k * 0x1_0000_0000 + i - j;
  }

  /** A run of `k` Cell constructions, as the grid board makes them: the cells
      get the counter's successive values. */
  method ConstructCells(counter: CellCounter, k: nat) returns (cells: seq<Cell>)
    modifies counter
    ensures |cells| == k
    ensures forall i :: 0 <= i < k ==> cells[i].id == Wrap32(old(counter.next) + i)
    ensures counter.next == Wrap32(old(counter.next) + k)
  {
    cells := [];
    while |cells| < k
      invariant |cells| <= k
      invariant forall i :: 0 <= i < |cells| ==> cells[i].id == Wrap32(old(counter.next) + i)
      invariant counter.next == Wrap32(old(counter.next) + |cells|)
    {
      Wrap32Add(old(counter.next) + |cells|, 1);
      var c := new Cell(counter);
      cells := cells + [c];
    }
  }

  /** The sixteen cells of a board built from a fresh counter carry the ids
      16..31, pairwise distinct. */
  lemma GridIds(ids: seq<Int32>)
    requires |ids| == 16
    requires forall i :: 0 <= i < 16 ==> ids[i] == Wrap32(16 + i)
    ensures forall i :: 0 <= i < 16 ==> ids[i] == 16 + i
    ensures forall i, j :: 0 <= i < j < 16 ==> ids[i] != ids[j]
  {
  }

  /** Cells built by one run have pairwise distinct ids whenever the run is
      shorter than the 2^32 values an int can take. */
  lemma CellIdsDistinct(start: Int32, ids: seq<Int32>)
    requires |ids| <= 0x1_0000_0000
    requires forall i :: 0 <= i < |ids| ==> ids[i] == Wrap32(start + i)
    ensures forall i, j :: 0 <= i < j < |ids| ==> ids[i] != ids[j]
  {
    forall i, j | 0 <= i < j < |ids|
      ensures ids[i] != ids[j]
    {
      WrappedIdsDistinct(start, i, j);
    }
  }

  // -------------------------------------------------------------- contents

  /** The container a piece sits in: none yet, a tile (known by its position
      id) or a grid cell. */
  datatype Parent = NoParent | InTile(tilePosition: Int32) | InCell(cell: Cell)

  /** getPosition: the id of the parent container. Without a parent the
      source dereferences null; that is None here. */
  function PositionOf(p: Parent): (r: Option<Int32>)
    ensures r.None? <==> p.NoParent?
    ensures p.InCell? ==> r == Some(p.cell.id)
    ensures p.InTile? ==> r == Some(p.tilePosition)
  {
    match p
    case NoParent => None
    case InTile(t) => Some(t)
    case InCell(c) => Some(c.id)
  }

  /** incrementTheta's new value: `(theta + 1) % 4` in Java int arithmetic. */
  function NextTheta(t: Int32): (r: Int32)
    ensures 0 <= t < 3 ==> r == t + 1
    ensures t == 3 ==> r == 0
    ensures -4 < r < 4
    ensures -4 <= t < 0 ==> r == t + 1
  {
    JavaRem(Wrap32(t + 1), 4)
  }

  /** `n` successive incrementTheta calls. */
  function Turns(t: Int32, n: nat): Int32
    decreases n
  {
    if n == 0 then t else Turns(NextTheta(t), n - 1)
  }

  /** Turns compose: a + b turns are b turns after a turns. */
  lemma {:induction false} TurnsAdd(t: Int32, a: nat, b: nat)
    ensures Turns(t, a + b) == Turns(Turns(t, a), b)
    decreases a
  {
    if a > 0 {
      TurnsAdd(NextTheta(t), a - 1, b);
    }
  }

  /** Four quarter turns restore a rotation in 0..3. */
  lemma FourTurnsRestore(t: Int32)
    requires 0 <= t < 4
    ensures Turns(t, 4) == t
  {
    assert Turns(t, 4) == NextTheta(NextTheta(NextTheta(NextTheta(t))));
  }

  /** From a rotation in 0..3 the rotation after n turns repeats with period 4. */
  lemma TurnsPeriodic(t: Int32, n: nat)
    requires 0 <= t < 4
    ensures Turns(t, n + 4) == Turns(t, n)
  {
    TurnsAdd(t, 4, n);
    FourTurnsRestore(t);
  }

  /** Once a rotation is in 0..3 it stays there. */
  lemma {:induction false} TurnsStayInRange(t: Int32, n: nat)
    requires 0 <= t < 4
    ensures 0 <= Turns(t, n) < 4
    decreases n
  {
    if n > 0 {
      TurnsStayInRange(NextTheta(t), n - 1);
    }
  }

  /** Whatever value a rotation starts from (setSavedRotation accepts any int),
      after four quarter turns it is in 0..3. */
  lemma TurnsSettle(t: Int32)
    ensures 0 <= Turns(t, 4) < 4
  {
    var t1 := NextTheta(t);
    var t2 := NextTheta(t1);
    var t3 := NextTheta(t2);
    assert Turns(t, 4) == Turns(t1, 3) == Turns(t2, 2) == Turns(t3, 1) == NextTheta(t3);
  }

  /** Content.contentIndex_: which decoded line set the next Content takes. */
  class ContentCounter {
    var next: Int32

    constructor()
      ensures next == 0
    {
      next := 0;
    }
  }

  class Content {
    var theta: Int32
    var defaultRotation: Int32
    var lines: Segments
    var parent: Parent

    /** Takes line set `lineInfo[contentIndex]` (the default definition
        file's segments) and advances the counter. */
    constructor(counter: ContentCounter, lineInfo: seq<Segments>)
      requires 0 <= counter.next < |lineInfo|
      modifies counter
      ensures lines == lineInfo[old(counter.next)]
      ensures theta == 0 && defaultRotation == 0 && parent == NoParent
      ensures counter.next == Wrap32(old(counter.next) + 1)
    {
      theta := 0;
      defaultRotation := 0;
      lines := lineInfo[counter.next];
      parent := NoParent;
      counter.next := Wrap32(counter.next + 1);
    }

    function CurrentRotation(): Int32
      reads this
    {
      theta
    }

    function DefaultRotation(): Int32
      reads this
    {
      defaultRotation
    }

    function Position(): (r: Option<Int32>)
      reads this
      ensures r == PositionOf(parent)
    {
      PositionOf(parent)
    }

    method IncrementTheta()
      modifies this
      ensures theta == NextTheta(old(theta))
      ensures defaultRotation == old(defaultRotation)
      ensures lines == old(lines) && parent == old(parent)
    {
      theta := JavaRem(Wrap32(theta + 1), 4);
    }

    method SetLines(importedLines: Segments)
      modifies this
      ensures lines == importedLines
      ensures theta == old(theta) && defaultRotation == old(defaultRotation) && parent == old(parent)
    {
      lines := importedLines;
    }

    /** Sets the current and the default rotation to the same value. */
    method SetRotateCount(setting: Int32)
      modifies this
      ensures theta == setting && defaultRotation == setting
      ensures lines == old(lines) && parent == old(parent)
    {
      theta := setting;
      defaultRotation := theta;
    }

    /** Sets only the current rotation; any int is accepted. */
    method SetSavedRotation(savedSetting: Int32)
      modifies this
      ensures theta == savedSetting
      ensures defaultRotation == old(defaultRotation)
      ensures lines == old(lines) && parent == old(parent)
    {
      theta := savedSetting;
    }

    /** A container's add(this): the piece moves into `p`. */
    method MoveTo(p: Parent)
      modifies this
      ensures parent == p
      ensures theta == old(theta) && defaultRotation == old(defaultRotation) && lines == old(lines)
    {
      parent := p;
    }
  }

  /** A run of `k` Content constructions (one per Tile, in creation order): the
      i-th piece built gets line set `lineInfo[start + i]`. */
  method ConstructContents(counter: ContentCounter, lineInfo: seq<Segments>, k: nat)
    returns (contents: seq<Content>)
    requires 0 <= counter.next && counter.next + k <= |lineInfo| && counter.next + k <= MAX_INT32 + 1
    modifies counter
    ensures |contents| == k
    ensures forall i :: 0 <= i < k ==> fresh(contents[i])
    ensures forall i :: 0 <= i < k ==>
      contents[i].lines == lineInfo[old(counter.next) + i] && contents[i].theta == 0
    ensures counter.next == Wrap32(old(counter.next) + k)
  {
    contents := [];
    while |contents| < k
      invariant |contents| <= k
      invariant counter.next == Wrap32(old(counter.next) + |contents|)
      invariant forall i :: 0 <= i < |contents| ==> fresh(contents[i])
      invariant forall i :: 0 <= i < |contents| ==>
        contents[i].lines == lineInfo[old(counter.next) + i] && contents[i].theta == 0
    {
      Wrap32Add(old(counter.next) + |contents|, 1);
      var c := new Content(counter, lineInfo);
      contents := contents + [c];
    }
  }

  /** What saveFile reads of a piece: its position, rotation and segments. */
  function Snapshot(c: Content): (p: SavePiece)
    reads c
    requires c.parent != NoParent
    ensures PositionOf(c.parent) == Some(p.position)
    ensures p.rotation == c.theta && p.lines == c.lines
  {
    SavePiece(PositionOf(c.parent).value, c.theta, c.lines)
  }

  function Snapshots(cs: seq<Content>): (ps: seq<SavePiece>)
    reads cs
    requires forall i :: 0 <= i < |cs| ==> cs[i].parent != NoParent
    ensures |ps| == |cs|
    ensures forall i :: 0 <= i < |cs| ==> ps[i] == Snapshot(cs[i])
  {
    seq(|cs|, i reads cs requires 0 <= i < |cs| && cs[i].parent != NoParent
      => Snapshot(cs[i]))
  }
}
