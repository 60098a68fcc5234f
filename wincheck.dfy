/** The win check run after every move or rotation: the game is won when
    every one of the sixteen pieces sits in the container whose id is its
    content id plus 16 and is not rotated. */
module WinCheck {
  import opened Conversions
  import opened Board
  import Clock
  import Window

  const PIECES: nat := 16

  /** What the check reads of one piece: getContentId, getPosition (None when
      the piece has no parent) and getCurrentRotation. */
  datatype PieceView = PieceView(contentId: Int32, position: Option<Int32>, rotation: Int32)

  /** A piece is home when its parent's id is its content id + 16 (Java int
      arithmetic) and its rotation is 0. */
  predicate Home(v: PieceView)
  {
    v.position == Some(Wrap32(v.contentId as int + 16)) && v.rotation == 0
  }

  /** The win condition, over the first sixteen pieces of the list. */
  predicate Won(vs: seq<PieceView>)
    requires |vs| >= PIECES
  {
    forall i :: 0 <= i < PIECES ==> Home(vs[i])
  }

  /** How a scan of the list ends: all home, or at the first piece that is not
      home, or at the first piece without a parent (a NullPointerException). */
  datatype Verdict = AllHome | NotHome(at: nat) | NoParentAt(at: nat)

  /** The scan from piece `i` on, in list order, stopping at the first failure. */
  function ScanFrom(vs: seq<PieceView>, i: nat): Verdict
    requires |vs| >= PIECES && i <= PIECES
    decreases PIECES - i
  {
    if i == PIECES then AllHome
    else if vs[i].position.None? then NoParentAt(i)
    else if Home(vs[i]) then ScanFrom(vs, i + 1)
    else NotHome(i)
  }

  /** The scan is a win exactly when the win condition holds, and otherwise
      names the first piece that breaks it, all pieces before it being home. */
  lemma {:induction false} ScanFromMeaning(vs: seq<PieceView>, i: nat)
    requires |vs| >= PIECES && i <= PIECES
    ensures ScanFrom(vs, i).AllHome? <==> forall m :: i <= m < PIECES ==> Home(vs[m])
    ensures ScanFrom(vs, i).NotHome? ==>
      var k := ScanFrom(vs, i).at;
      i <= k < PIECES && !Home(vs[k]) && vs[k].position.Some? && forall m :: i <= m < k ==> Home(vs[m])
    ensures ScanFrom(vs, i).NoParentAt? ==>
      var k := ScanFrom(vs, i).at;
      i <= k < PIECES && vs[k].position.None? && forall m :: i <= m < k ==> Home(vs[m])
    decreases PIECES - i
  {
    if i < PIECES && vs[i].position.Some? && Home(vs[i]) {
      ScanFromMeaning(vs, i + 1);
    }
  }

  /** The check's verdict is a win if and only if all sixteen pieces are home. */
  lemma ScanDecidesWin(vs: seq<PieceView>)
    requires |vs| >= PIECES
    ensures ScanFrom(vs, 0).AllHome? <==> Won(vs)
  {
    ScanFromMeaning(vs, 0);
  }

  function View(c: Content, contentId: Int32): (v: PieceView)
    reads c
    ensures v.position == PositionOf(c.parent) && v.rotation == c.theta && v.contentId == contentId
  {
    PieceView(contentId, PositionOf(c.parent), c.theta)
  }

  function Views(cs: seq<Content>, contentIds: seq<Int32>): (vs: seq<PieceView>)
    reads cs
    requires |contentIds| == |cs|
    ensures |vs| == |cs|
    ensures forall i :: 0 <= i < |cs| ==> vs[i] == View(cs[i], contentIds[i])
  {
    seq(|cs|, i reads cs requires 0 <= i < |cs| => View(cs[i], contentIds[i]))
  }

  class WinCheck {
    /** checkList_: the registry of pieces in creation order. */
    const checkList: seq<Content>
    /** isMatched_. */
    var isMatched: bool

    constructor(pieces: seq<Content>)
      ensures checkList == pieces && !isMatched
    {
      checkList := pieces;
      isMatched := false;
    }

    /** IdCheck. `contentIds[i]` is getContentId of piece i. A win pauses the
        clock and clears the changed flag; any other ending touches neither. */
    method IdCheck(contentIds: seq<Int32>, clock: Clock.Clock, window: Window.WindowState)
      returns (verdict: Verdict)
      requires |checkList| >= PIECES && |contentIds| == |checkList|
      modifies this, clock, window
      ensures verdict == ScanFrom(Views(checkList, contentIds), 0)
      ensures verdict.AllHome? ==> isMatched
      ensures verdict.NotHome? ==> !isMatched
      ensures verdict.NoParentAt? ==> isMatched == (if verdict.at == 0 then old(isMatched) else true)
      ensures verdict.AllHome? ==>
        !clock.isGoTime && clock.capturedTime == old(clock.capturedTime) &&
        !window.changed && window.isNewLoad == old(window.isNewLoad) &&
        window.resetPositions == old(window.resetPositions) &&
        window.resetRotations == old(window.resetRotations)
      ensures !verdict.AllHome? ==> unchanged(clock) && unchanged(window)
    {
      verdict := Scan(contentIds);
      if !verdict.AllHome? {
        return;
      }
      if isMatched {
        clock.SetGoTime(false);
        window.SetChanged(false);
      }
    }

    /** IdCheck's loop over the sixteen pieces: it stops at the first piece
        that is not home, clearing isMatched, and sets isMatched for each
        piece that is. */
    method Scan(contentIds: seq<Int32>) returns (verdict: Verdict)
      requires |checkList| >= PIECES && |contentIds| == |checkList|
      modifies this`isMatched
      ensures verdict == ScanFrom(Views(checkList, contentIds), 0)
      ensures verdict.AllHome? ==> isMatched
      ensures verdict.NotHome? ==> !isMatched
      ensures verdict.NoParentAt? ==> isMatched == (if verdict.at == 0 then old(isMatched) else true)
    {
      ghost var vs := Views(checkList, contentIds);
      var i := 0;
      while i < PIECES
        invariant 0 <= i <= PIECES
        invariant ScanFrom(vs, 0) == ScanFrom(vs, i)
        invariant isMatched == (if i == 0 then old(isMatched) else true)
      {
        var checkedPiece := checkList[i];
        var position := checkedPiece.Position();
        assert vs[i] == PieceView(contentIds[i], position, checkedPiece.theta);
        if position.None? {
          return NoParentAt(i);
        }
        if Wrap32(contentIds[i] as int + 16) == position.value && checkedPiece.CurrentRotation() == 0 {
          isMatched := true;
        } else {
          isMatched := false;
          return NotHome(i);
        }
        i := i + 1;
      }
      return AllHome;
    }
  }
}
