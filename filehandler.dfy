/** RawFileHandler: reads a `.mze` file into the handler's arrays and line
    list, and writes the save layout from the piece registry.

    The handler reads the file four bytes at a time through a stream; here
    the file is a byte sequence and the stream's position is a word index
    `pos` (the next read covers bytes 4*pos..4*pos+3). Each decoding loop is
    proved against the readers of MazeFormat, and saveFile against
    SaveImage. */
module FileHandler {
  import opened Conversions
  import opened MazeFormat
  import opened Board
  import FormatLaws

  /** How parseBytes ends: with its return code, or with a failure. */
  datatype Outcome = Returned(code: int) | Failed(error: DecodeError)

  /** parseBytes' ending for a given decoding of the file: 0 for either kind
      of maze file, -1 for a file that is neither. */
  function Expected(d: Decoded): (r: Outcome)
    ensures r == Returned(-1) <==> d.NotAMaze?
    ensures r == Returned(0) <==> d.DefinitionDoc? || d.SaveDoc?
    ensures r.Failed? <==> d.Broken?
  {
    match d
    case DefinitionDoc(_) => Returned(0)
    case SaveDoc(_) => Returned(0)
    case NotAMaze => Returned(-1)
    case Broken(_, e) => Failed(e)
  }

  // ------------------------------------------------ reading, one step at a time

  /** The i-th segment of a run of segments is the one at word 4i. */
  lemma {:induction false} LinesFromAt(w: seq<Word32>, count: nat, m: nat)
    requires 4 * count <= |w| && m < count
    ensures LinesFrom(w, count)[m] == LineAt(w[4 * m..])
    decreases m
  {
    if m > 0 {
      LinesFromAt(w[4..], count - 1, m - 1);
      assert w[4..][4 * (m - 1)..] == w[4 * m..];
    }
  }

  /** Segments read one by one from word `pos` on are the run LinesFrom reads. */
  lemma LinesFromEach(w: seq<Word32>, pos: nat, count: nat, lines: seq<Line>)
    requires pos + 4 * count <= |w| && |lines| == count
    requires forall m :: 0 <= m < count ==> lines[m] == LineAt(w[pos + 4 * m..])
    ensures lines == LinesFrom(w[pos..], count)
  {
    forall m | 0 <= m < count
      ensures lines[m] == LinesFrom(w[pos..], count)[m]
    {
      LinesFromAt(w[pos..], count, m);
      assert w[pos..][4 * m..] == w[pos + 4 * m..];
    }
  }

  /** One segment at word `at`: four float reads into a fresh coordinate
      array, then one Line2D from its four values. */
  method ReadSegment(file: seq<byte>, at: nat) returns (line: Line)
    requires at + 4 <= |file| / 4
    ensures line == LineAt(Words(file)[at..])
  {
    ghost var w := Words(file);
    var xyCoords := new Float32[4];
    for k := 0 to 4
      invariant forall q :: 0 <= q < k ==> xyCoords[q] == Float32(w[at + q])
    {
      var offset := 4 * (at + k);
      xyCoords[k] := BytesToFloat(file[offset..offset + 4]);
      WordsAt(file, at + k);
    }
    line := Line(xyCoords[0], xyCoords[1], xyCoords[2], xyCoords[3]);
  }

  /** The `count` segments starting at word `pos`, into a fresh segment array. */
  method ReadSegments(file: seq<byte>, pos: nat, count: nat) returns (lines: seq<Line>)
    requires pos + 4 * count <= |file| / 4
    ensures lines == LinesFrom(Words(file)[pos..], count)
  {
    ghost var w := Words(file);
    var floatValues := new Line[count];
    for j := 0 to count
      invariant forall m :: 0 <= m < j ==> floatValues[m] == LineAt(w[pos + 4 * m..])
    {
      floatValues[j] := ReadSegment(file, pos + 4 * j);
    }
    lines := floatValues[..];
    LinesFromEach(w, pos, count, lines);
  }

  /** convertToInt on the four bytes of word `k`. */
  method ReadInt(file: seq<byte>, k: nat) returns (v: Int32)
    requires k < |file| / 4
    ensures v == Signed(Words(file)[k])
  {
    v := BytesToInt(file[4 * k..4 * k + 4]);
    WordsAt(file, k);
  }

  /** What ParseDefPiece reads from word `pos` of a stream, in the stream's
      own word positions. */
  function DefPieceFrom(w: seq<Word32>, pos: nat): Result<Parsed<DefPiece>>
    requires pos <= |w|
  {
    if pos + 3 > |w| then Err(Truncated)
    else if w[pos + 2] > MAX_INT32 then Err(NegativeSize)
    else if pos + 3 + 4 * (w[pos + 2] as int) > |w| then Err(Truncated)
    else Ok(Parsed(DefPiece(Signed(w[pos + 1]), LinesFrom(w[pos + 3..], w[pos + 2])),
                   w[pos + 3 + 4 * (w[pos + 2] as int)..]))
  }

  /** ParseDefPiece on the suffix from word `pos` is DefPieceFrom at `pos`. */
  lemma DefPieceAt(w: seq<Word32>, pos: nat)
    requires pos <= |w|
    ensures ParseDefPiece(w[pos..]) == DefPieceFrom(w, pos)
  {
    if pos + 3 <= |w| {
      assert w[pos..][1] == w[pos + 1] && w[pos..][2] == w[pos + 2] && w[pos..][3..] == w[pos + 3..];
      if pos + 3 + 4 * (w[pos + 2] as int) <= |w| {
        assert w[pos..][3 + 4 * (w[pos + 2] as int)..] == w[pos + 3 + 4 * (w[pos + 2] as int)..];
      }
    }
  }

  /** What ParseSavePiece reads from word `pos` of a stream, in the stream's
      own word positions. */
  function SavePieceFrom(w: seq<Word32>, pos: nat): Result<Parsed<SavePiece>>
    requires pos <= |w|
  {
    if pos + 3 > |w| then Err(Truncated)
    else if w[pos + 2] > MAX_INT32 then Err(NegativeSize)
    else if pos + 3 + 4 * (w[pos + 2] as int) > |w| then Err(Truncated)
    else Ok(Parsed(SavePiece(Signed(w[pos]), Signed(w[pos + 1]), LinesFrom(w[pos + 3..], w[pos + 2])),
                   w[pos + 3 + 4 * (w[pos + 2] as int)..]))
  }

  /** ParseSavePiece on the suffix from word `pos` is SavePieceFrom at `pos`. */
  lemma SavePieceAt(w: seq<Word32>, pos: nat)
    requires pos <= |w|
    ensures ParseSavePiece(w[pos..]) == SavePieceFrom(w, pos)
  {
    if pos + 3 <= |w| {
      assert w[pos..][0] == w[pos] && w[pos..][1] == w[pos + 1] && w[pos..][2] == w[pos + 2];
      assert w[pos..][3..] == w[pos + 3..];
      if pos + 3 + 4 * (w[pos + 2] as int) <= |w| {
        assert w[pos..][3 + 4 * (w[pos + 2] as int)..] == w[pos + 3 + 4 * (w[pos + 2] as int)..];
      }
    }
  }

  /** One definition piece at word `pos`: a discarded word, the id and L,
      which go into ids[i] and lineCounts[i] as soon as they are read, then
      L segments. It reads what ParseDefPiece reads, and fails as it does. */
  method ReadDefPiece(file: seq<byte>, pos: nat, ids: array<Int32>, lineCounts: array<Int32>, i: nat)
    returns (failure: Option<DecodeError>, piece: DefPiece, next: nat)
    requires pos <= |file| / 4 && i < ids.Length && i < lineCounts.Length && ids != lineCounts
    modifies ids, lineCounts
    ensures failure.Some? ==> DefPieceFrom(Words(file), pos) == Err(failure.value)
    ensures failure.None? ==>
      pos < next <= |file| / 4 && DefPieceFrom(Words(file), pos) == Ok(Parsed(piece, Words(file)[next..])) &&
      ids[i] == piece.id && lineCounts[i] == |piece.lines|
    ensures forall m :: 0 <= m < ids.Length && m != i ==> ids[m] == old(ids[m])
    ensures forall m :: 0 <= m < lineCounts.Length && m != i ==> lineCounts[m] == old(lineCounts[m])
  {
    ghost var w := Words(file);
    piece, next := DefPiece(0, []), pos;
    if pos + 3 > |file| / 4 {
      return Some(Truncated), piece, next;
    }
    var id, count := ReadDefHeader(file, pos, ids, lineCounts, i);
    if count < 0 {
      return Some(NegativeSize), piece, next;
    }
    assert count as int == w[pos + 2];
    if pos + 3 + 4 * (count as int) > |file| / 4 {
      return Some(Truncated), piece, next;
    }
    var floatValues := ReadSegments(file, pos + 3, count as int);
    next := pos + 3 + 4 * (count as int);
    piece := DefPiece(id, floatValues);
    failure := None;
  }

  /** The header of a definition piece at word `pos`: the first word is read
      and discarded (a leftover of an earlier layout), then the id and L,
      stored at index i as soon as they are read. */
  method ReadDefHeader(file: seq<byte>, pos: nat, ids: array<Int32>, lineCounts: array<Int32>, i: nat)
    returns (id: Int32, count: Int32)
    requires pos + 3 <= |file| / 4 && i < ids.Length && i < lineCounts.Length && ids != lineCounts
    modifies ids, lineCounts
    ensures id == Signed(Words(file)[pos + 1]) && count == Signed(Words(file)[pos + 2])
    ensures ids[i] == id && lineCounts[i] == count
    ensures forall m :: 0 <= m < ids.Length && m != i ==> ids[m] == old(ids[m])
    ensures forall m :: 0 <= m < lineCounts.Length && m != i ==> lineCounts[m] == old(lineCounts[m])
  {
    var _ := ReadInt(file, pos);
    id := ReadInt(file, pos + 1);
    ids[i] := id;
    count := ReadInt(file, pos + 2);
    lineCounts[i] := count;
  }

  /** One saved piece at word `pos`: position, rotation and L, each stored as
      soon as it is read, then L segments; as ParseSavePiece reads it. */
  method ReadSavePiece(file: seq<byte>, pos: nat, ids: array<Int32>, rotations: array<Int32>,
                       lineCounts: array<Int32>, i: nat)
    returns (failure: Option<DecodeError>, piece: SavePiece, next: nat)
    requires pos <= |file| / 4 && i < ids.Length && i < rotations.Length && i < lineCounts.Length
    requires ids != lineCounts && ids != rotations && rotations != lineCounts
    modifies ids, rotations, lineCounts
    ensures failure.Some? ==> SavePieceFrom(Words(file), pos) == Err(failure.value)
    ensures failure.None? ==>
      pos < next <= |file| / 4 && SavePieceFrom(Words(file), pos) == Ok(Parsed(piece, Words(file)[next..])) &&
      ids[i] == piece.position && rotations[i] == piece.rotation && lineCounts[i] == |piece.lines|
    ensures forall m :: 0 <= m < ids.Length && m != i ==> ids[m] == old(ids[m])
    ensures forall m :: 0 <= m < rotations.Length && m != i ==> rotations[m] == old(rotations[m])
    ensures forall m :: 0 <= m < lineCounts.Length && m != i ==> lineCounts[m] == old(lineCounts[m])
  {
    ghost var w := Words(file);
    piece, next := SavePiece(0, 0, []), pos;
    if pos + 3 > |file| / 4 {
      return Some(Truncated), piece, next;
    }
    var position, rotation, count := ReadSaveHeader(file, pos, ids, rotations, lineCounts, i);
    if count < 0 {
      return Some(NegativeSize), piece, next;
    }
    assert count as int == w[pos + 2];
    if pos + 3 + 4 * (count as int) > |file| / 4 {
      return Some(Truncated), piece, next;
    }
    var floatValues := ReadSegments(file, pos + 3, count as int);
    next := pos + 3 + 4 * (count as int);
    piece := SavePiece(position, rotation, floatValues);
    failure := None;
  }

  /** The header of a saved piece at word `pos`: position, rotation and L,
      stored at index i as soon as they are read. */
  method ReadSaveHeader(file: seq<byte>, pos: nat, ids: array<Int32>, rotations: array<Int32>,
                        lineCounts: array<Int32>, i: nat)
    returns (position: Int32, rotation: Int32, count: Int32)
    requires pos + 3 <= |file| / 4 && i < ids.Length && i < rotations.Length && i < lineCounts.Length
    requires ids != lineCounts && ids != rotations && rotations != lineCounts
    modifies ids, rotations, lineCounts
    ensures position == Signed(Words(file)[pos]) && rotation == Signed(Words(file)[pos + 1])
    ensures count == Signed(Words(file)[pos + 2])
    ensures ids[i] == position && rotations[i] == rotation && lineCounts[i] == count
    ensures forall m :: 0 <= m < ids.Length && m != i ==> ids[m] == old(ids[m])
    ensures forall m :: 0 <= m < rotations.Length && m != i ==> rotations[m] == old(rotations[m])
    ensures forall m :: 0 <= m < lineCounts.Length && m != i ==> lineCounts[m] == old(lineCounts[m])
  {
    position := ReadInt(file, pos);
    ids[i] := position;
    rotation := ReadInt(file, pos + 1);
    rotations[i] := rotation;
    count := ReadInt(file, pos + 2);
    lineCounts[i] := count;
  }

  /** The decoding loop's accumulation after one more definition piece. */
  lemma DefAdvance(xs: seq<Word32>, count: nat, rest: nat, done: seq<DefPiece>, p: DefPiece, ys: seq<Word32>)
    requires count == rest + 1
    requires ParseDefPiece(xs) == Ok(Parsed(p, ys))
    ensures Prepend(done, ParseDefPieces(xs, count)) == Prepend(done + [p], ParseDefPieces(ys, rest))
  {
    match ParseDefPieces(ys, rest)
    case Err(e) =>
    case Ok(others) =>
      assert done + ([p] + others.value) == (done + [p]) + others.value;
  }

  /** The loading loop's accumulation after one more saved piece. */
  lemma SaveAdvance(xs: seq<Word32>, count: nat, rest: nat, done: seq<SavePiece>, p: SavePiece, ys: seq<Word32>)
    requires count == rest + 1
    requires ParseSavePiece(xs) == Ok(Parsed(p, ys))
    ensures Prepend(done, ParseSavePieces(xs, count)) == Prepend(done + [p], ParseSavePieces(ys, rest))
  {
    match ParseSavePieces(ys, rest)
    case Err(e) =>
    case Ok(others) =>
      assert done + ([p] + others.value) == (done + [p]) + others.value;
  }

  lemma DefLineSetsSnoc(done: seq<DefPiece>, p: DefPiece)
    ensures DefLineSets(done + [p]) == DefLineSets(done) + [p.lines]
  {
    assert DefLineSets(done + [p])[|done|] == p.lines;
  }

  lemma LineSetsSnoc(done: seq<SavePiece>, p: SavePiece)
    ensures LineSets(done + [p]) == LineSets(done) + [p.lines]
  {
    assert LineSets(done + [p])[|done|] == p.lines;
  }

  /** A definition file too short for N, or with a negative N, is broken at
      its header. */
  lemma DefinitionHeaderFails(file: seq<byte>)
    requires |file| / 4 < 2 || Words(file)[1] > MAX_INT32
    ensures |file| / 4 < 2 ==> DecodeDefinition(file) == Err(Truncated)
    ensures |file| / 4 >= 2 ==> DecodeDefinition(file) == Err(NegativeSize)
  {
    if |file| / 4 >= 2 {
      assert DecodeDefinitionWords(Words(file)) == Err(NegativeSize);
    }
  }

  /** The decoding loop of a definition after `i` pieces, the next one at word
      `pos`: the whole decode is the pieces read so far, `done`, followed by
      what the remaining pieces decode to. */
  ghost predicate DefProgress(w: seq<Word32>, i: nat, pos: nat, done: seq<DefPiece>)
  {
    2 <= |w| && 2 <= pos <= |w| && |done| == i && i <= w[1] <= MAX_INT32 &&
    ParseDefPieces(w[2..], w[1]) == Prepend(done, ParseDefPieces(w[pos..], w[1] - i))
  }

  lemma DefProgressStarts(w: seq<Word32>)
    requires 2 <= |w| && w[1] <= MAX_INT32
    ensures DefProgress(w, 0, 2, [])
  {
    PrependNothing(ParseDefPieces(w[2..], w[1]));
  }

  /** One more piece read keeps the accumulation. */
  lemma DefProgressStep(w: seq<Word32>, i: nat, pos: nat, done: seq<DefPiece>, p: DefPiece, next: nat)
    requires DefProgress(w, i, pos, done) && i < w[1] && pos < next <= |w|
    requires DefPieceFrom(w, pos) == Ok(Parsed(p, w[next..]))
    ensures DefProgress(w, i + 1, next, done + [p])
  {
    DefPieceAt(w, pos);
    DefAdvance(w[pos..], w[1] - i, w[1] - (i + 1), done, p, w[next..]);
  }

  /** A piece the stream cannot supply ends the decode with that piece's error. */
  lemma DefProgressFails(w: seq<Word32>, i: nat, pos: nat, done: seq<DefPiece>)
    requires DefProgress(w, i, pos, done) && i < w[1] && DefPieceFrom(w, pos).Err?
    ensures DecodeDefinitionWords(w) == Err(DefPieceFrom(w, pos).error)
  {
    DefPieceAt(w, pos);
  }

  /** Read to its last piece, the decode is exactly the pieces read. */
  lemma DefProgressDone(w: seq<Word32>, pos: nat, done: seq<DefPiece>)
    requires 2 <= |w| && DefProgress(w, w[1], pos, done)
    ensures DecodeDefinitionWords(w) == Ok(done)
  {
    assert done + [] == done;
  }

  /** The decoding loop of a save after `i` pieces, the next one at word
      `pos`: the whole decode is the pieces read so far, `done`, followed by
      what the remaining pieces decode to. */
  ghost predicate SaveProgress(w: seq<Word32>, i: nat, pos: nat, done: seq<SavePiece>)
  {
    2 <= |w| && 2 <= pos <= |w| && |done| == i && i <= w[1] <= MAX_INT32 &&
    ParseSavePieces(w[2..], w[1]) == Prepend(done, ParseSavePieces(w[pos..], w[1] - i))
  }

  lemma SaveProgressStarts(w: seq<Word32>)
    requires 2 <= |w| && w[1] <= MAX_INT32
    ensures SaveProgress(w, 0, 2, [])
  {
    PrependNothing(ParseSavePieces(w[2..], w[1]));
  }

  /** One more piece read keeps the accumulation. */
  lemma SaveProgressStep(w: seq<Word32>, i: nat, pos: nat, done: seq<SavePiece>, p: SavePiece, next: nat)
    requires SaveProgress(w, i, pos, done) && i < w[1] && pos < next <= |w|
    requires SavePieceFrom(w, pos) == Ok(Parsed(p, w[next..]))
    ensures SaveProgress(w, i + 1, next, done + [p])
  {
    SavePieceAt(w, pos);
    SaveAdvance(w[pos..], w[1] - i, w[1] - (i + 1), done, p, w[next..]);
  }

  /** A piece the stream cannot supply ends the decode with that piece's error. */
  lemma SaveProgressFails(w: seq<Word32>, i: nat, pos: nat, done: seq<SavePiece>)
    requires SaveProgress(w, i, pos, done) && i < w[1] && SavePieceFrom(w, pos).Err?
    ensures DecodeSaveWords(w) == Err(SavePieceFrom(w, pos).error)
  {
    SavePieceAt(w, pos);
  }

  /** Read to its last piece, the decode is exactly the pieces read. */
  lemma SaveProgressDone(w: seq<Word32>, pos: nat, done: seq<SavePiece>)
    requires 2 <= |w| && SaveProgress(w, w[1], pos, done)
    ensures DecodeSaveWords(w) == Ok(done)
  {
    assert done + [] == done;
  }

  lemma PrependNothing<T>(r: Result<Parsed<seq<T>>>)
    ensures Prepend([], r) == r
  {
    if r.Ok? {
      assert [] + r.value.value == r.value.value;
    }
  }

  // ------------------------------------------------------------ the handler

  class RawFileHandler {
    var fileName: string
    var tileIndex: Int32
    var tileIds: array?<Int32>
    var tileRotations: array?<Int32>
    var tileLines: array?<Int32>
    var lineInfo: seq<Segments>

    /** The handler holds the decoded definition `ps`, appended to the line
        sets it held before. */
    ghost predicate HoldsDefinition(ps: seq<DefPiece>, priorLines: seq<Segments>)
      reads this, tileIds, tileLines
    {
      tileIds != null && tileLines != null && tileIndex == |ps| &&
      tileIds[..] == DefIds(ps) && tileLines[..] == DefLineCounts(ps) &&
      lineInfo == priorLines + DefLineSets(ps)
    }

    /** The handler holds exactly the decoded save `ps`. */
    ghost predicate HoldsSave(ps: seq<SavePiece>)
      reads this, tileIds, tileLines, tileRotations
    {
      tileIds != null && tileLines != null && tileRotations != null && tileIndex == |ps| &&
      tileIds[..] == Positions(ps) && tileRotations[..] == Rotations(ps) &&
      tileLines[..] == LineCounts(ps) && lineInfo == LineSets(ps)
    }

    /** A handler for a file: when the file exists its name is recorded and it
        is parsed; otherwise (the not-found dialog) nothing is read. A file
        with neither magic leaves the handler as empty as a missing one. */
    constructor(fileExists: bool, name: string, file: seq<byte>)
      ensures !fileExists ==>
        fileName == "" && tileIndex == 0 && lineInfo == [] &&
        tileIds == null && tileRotations == null && tileLines == null
      ensures fileExists ==> fileName == name
      ensures fileExists && DecodeFile(file).DefinitionDoc? ==>
        HoldsDefinition(DecodeFile(file).defs, []) && tileRotations == null
      ensures fileExists && DecodeFile(file).SaveDoc? ==> HoldsSave(DecodeFile(file).saved)
      ensures fileExists && DecodeFile(file).NotAMaze? ==>
        fileName == name && tileIndex == 0 && lineInfo == [] &&
        tileIds == null && tileRotations == null && tileLines == null
    {
      fileName := "";
      tileIndex := 0;
      tileIds := null;
      tileRotations := null;
      tileLines := null;
      lineInfo := [];
      new;
      if fileExists {
        SetFileName(name);
        var _ := ParseBytes(file);
      }
    }

    method SetFileName(name: string)
      modifies this
      ensures fileName == name
      ensures tileIndex == old(tileIndex) && lineInfo == old(lineInfo)
      ensures tileIds == old(tileIds) && tileRotations == old(tileRotations) && tileLines == old(tileLines)
    {
      fileName := name;
    }

    /** parseBytes: reads the magic word and dispatches on its hex rendering.
        CAFEDEED goes to loadFile; CAFEBEEF is decoded here: N, then per piece
        a discarded word, the id, L and L segments, each segment set appended
        to the line list (which is not cleared first), the rotations left
        alone. Any other magic returns -1 and changes nothing. */
    method ParseBytes(file: seq<byte>) returns (outcome: Outcome)
      modifies this
      ensures outcome == Expected(DecodeFile(file))
      ensures fileName == old(fileName)
      ensures DecodeFile(file).DefinitionDoc? ==>
        HoldsDefinition(DecodeFile(file).defs, old(lineInfo)) && tileRotations == old(tileRotations) &&
        fresh(tileIds) && fresh(tileLines)
      ensures DecodeFile(file).SaveDoc? ==>
        HoldsSave(DecodeFile(file).saved) && fresh(tileIds) && fresh(tileLines) && fresh(tileRotations)
      ensures DecodeFile(file).NotAMaze? ==>
        tileIndex == old(tileIndex) && lineInfo == old(lineInfo) &&
        tileIds == old(tileIds) && tileRotations == old(tileRotations) && tileLines == old(tileLines)
    {
      var byteSection := MagicWord(file);
      var hexValues := ConvertToHex(byteSection);
      if hexValues == "CAFEDEED" {
        var failure := LoadFile(file);
        if failure.Some? {
          return Failed(failure.value);
        }
        return Returned(0);
      } else if hexValues == "CAFEBEEF" {
        outcome := ParseDefinition(file);
        return;
      } else {
        return Returned(-1);
      }
    }

    /** The CAFEBEEF branch of parseBytes, from the second word on. */
    method ParseDefinition(file: seq<byte>) returns (outcome: Outcome)
      requires Classify(file) == DefinitionFile
      modifies this
      ensures outcome == Expected(DecodeFile(file))
      ensures fileName == old(fileName)
      ensures outcome == Returned(0) ==>
        HoldsDefinition(DecodeFile(file).defs, old(lineInfo)) && tileRotations == old(tileRotations) &&
        fresh(tileIds) && fresh(tileLines)
    {
      ghost var w := Words(file);
      if |file| / 4 < 2 {
        DefinitionHeaderFails(file);
        return Failed(Truncated);
      }
      tileIndex := ReadInt(file, 1);
      if tileIndex < 0 {
        DefinitionHeaderFails(file);
        return Failed(NegativeSize);
      }
      var ids := new Int32[tileIndex];
      var lineCounts := new Int32[tileIndex];
      tileIds := ids;
      tileLines := lineCounts;
      var failure := ReadDefinitionPieces(file, ids, lineCounts);
      if failure.Some? {
        return Failed(failure.value);
      }
      return Returned(0);
    }

    /** The piece loop of the CAFEBEEF branch: tileIndex pieces from word 2 on. */
    method ReadDefinitionPieces(file: seq<byte>, ids: array<Int32>, lineCounts: array<Int32>)
      returns (failure: Option<DecodeError>)
      requires 2 <= |file| / 4 && Words(file)[1] == tileIndex as int
      requires ids.Length == lineCounts.Length == tileIndex as int && ids != lineCounts
      modifies this`lineInfo, ids, lineCounts
      ensures failure == (match DecodeDefinition(file) case Ok(_) => None case Err(e) => Some(e))
      ensures failure.None? ==>
        ids[..] == DefIds(DecodeDefinition(file).value) && lineCounts[..] == DefLineCounts(DecodeDefinition(file).value) &&
        lineInfo == old(lineInfo) + DefLineSets(DecodeDefinition(file).value)
    {
      ghost var w := Words(file);
      ghost var prior := lineInfo;
      var pos := 2;
      ghost var done: seq<DefPiece> := [];
      DefProgressStarts(w);
      for i := 0 to tileIndex
        invariant DefinitionLoop(file, ids, lineCounts, prior, i, pos, done)
      {
        var stop;
        stop, pos, done := DefinitionStep(file, ids, lineCounts, prior, i, pos, done);
        if stop.Some? {
          return stop;
        }
      }
      DefProgressDone(w, pos, done);
      assert ids[..] == DefIds(done) && lineCounts[..] == DefLineCounts(done);
      return None;
    }

    /** The state of the piece loop after `i` pieces, the next one at word
        `pos`: the pieces read so far are `done`, stored in the arrays and
        appended to the line list. */
    ghost predicate DefinitionLoop(file: seq<byte>, ids: array<Int32>, lineCounts: array<Int32>, prior: seq<Segments>,
                                   i: nat, pos: nat, done: seq<DefPiece>)
      reads this, ids, lineCounts
    {
      DefProgress(Words(file), i, pos, done) && i <= ids.Length && i <= lineCounts.Length &&
      (forall m :: 0 <= m < i ==> ids[m] == done[m].id && lineCounts[m] == |done[m].lines|) &&
      lineInfo == prior + DefLineSets(done)
    }

    /** One turn of the piece loop: the next piece, or the error that ends it. */
    method DefinitionStep(file: seq<byte>, ids: array<Int32>, lineCounts: array<Int32>, ghost prior: seq<Segments>,
                          i: nat, pos: nat, ghost done: seq<DefPiece>)
      returns (stop: Option<DecodeError>, next: nat, ghost done': seq<DefPiece>)
      requires ids != lineCounts && i < ids.Length && i < lineCounts.Length && 2 <= |file| / 4 && i < Words(file)[1] <= MAX_INT32
      requires DefinitionLoop(file, ids, lineCounts, prior, i, pos, done)
      modifies this`lineInfo, ids, lineCounts
      ensures stop.Some? ==> DecodeDefinition(file) == Err(stop.value)
      ensures stop.None? ==> DefinitionLoop(file, ids, lineCounts, prior, i + 1, next, done')
    {
      ghost var w := Words(file);
      done' := done;
      var piece;
      stop, piece, next := ReadDefPiece(file, pos, ids, lineCounts, i);
      if stop.Some? {
        assert DefPieceFrom(w, pos).Err?;
        DefProgressFails(w, i, pos, done);
        return;
      }
      lineInfo := lineInfo + [piece.lines];
      DefProgressStep(w, i, pos, done, piece, next);
      DefLineSetsSnoc(done, piece);
      done' := done + [piece];
      assert lineInfo == prior + DefLineSets(done') by {
        assert prior + DefLineSets(done') == (prior + DefLineSets(done)) + [piece.lines];
      }
      assert forall m :: 0 <= m < i ==> ids[m] == old(ids[m]) && lineCounts[m] == old(lineCounts[m]);
      assert forall m :: 0 <= m < i + 1 ==> ids[m] == done'[m].id && lineCounts[m] == |done'[m].lines|;
    }

    /** loadFile: clears the line list, skips the magic word, then reads N and
        per piece the position, rotation, L and L segments into fresh arrays
        and the line list. None when it reads the whole save; otherwise why it
        stopped. */
    method LoadFile(file: seq<byte>) returns (failure: Option<DecodeError>)
      modifies this
      ensures failure == (match DecodeSave(file) case Ok(_) => None case Err(e) => Some(e))
      ensures fileName == old(fileName)
      ensures failure.None? ==>
        HoldsSave(DecodeSave(file).value) && fresh(tileIds) && fresh(tileLines) && fresh(tileRotations)
    {
      ghost var w := Words(file);
      lineInfo := [];
      if |file| / 4 < 2 {
        return Some(Truncated);
      }
      tileIndex := ReadInt(file, 1);
      if tileIndex < 0 {
        return Some(NegativeSize);
      }
      var ids := new Int32[tileIndex];
      var lineCounts := new Int32[tileIndex];
      var rotations := new Int32[tileIndex];
      tileIds := ids;
      tileLines := lineCounts;
      tileRotations := rotations;
      failure := ReadSavePieces(file, ids, rotations, lineCounts);
    }

    /** The piece loop of loadFile: tileIndex pieces from word 2 on. */
    method ReadSavePieces(file: seq<byte>, ids: array<Int32>, rotations: array<Int32>, lineCounts: array<Int32>)
      returns (failure: Option<DecodeError>)
      requires 2 <= |file| / 4 && Words(file)[1] == tileIndex as int && lineInfo == []
      requires ids.Length == rotations.Length == lineCounts.Length == tileIndex as int
      requires ids != lineCounts && ids != rotations && rotations != lineCounts
      modifies this`lineInfo, ids, rotations, lineCounts
      ensures failure == (match DecodeSave(file) case Ok(_) => None case Err(e) => Some(e))
      ensures failure.None? ==>
        ids[..] == Positions(DecodeSave(file).value) && rotations[..] == Rotations(DecodeSave(file).value) &&
        lineCounts[..] == LineCounts(DecodeSave(file).value) && lineInfo == LineSets(DecodeSave(file).value)
    {
      ghost var w := Words(file);
      var pos := 2;
      ghost var done: seq<SavePiece> := [];
      SaveProgressStarts(w);
      for i := 0 to tileIndex
        invariant SaveLoop(file, ids, rotations, lineCounts, i, pos, done)
      {
        var stop;
        stop, pos, done := SaveStep(file, ids, rotations, lineCounts, i, pos, done);
        if stop.Some? {
          return stop;
        }
      }
      SaveProgressDone(w, pos, done);
      assert ids[..] == Positions(done) && rotations[..] == Rotations(done) && lineCounts[..] == LineCounts(done);
      return None;
    }

    /** The state of loadFile's loop after `i` pieces, the next one at word
        `pos`: the pieces read so far are `done`, stored in the arrays and in
        the line list. */
    ghost predicate SaveLoop(file: seq<byte>, ids: array<Int32>, rotations: array<Int32>, lineCounts: array<Int32>,
                             i: nat, pos: nat, done: seq<SavePiece>)
      reads this, ids, rotations, lineCounts
    {
      SaveProgress(Words(file), i, pos, done) &&
      i <= ids.Length && i <= rotations.Length && i <= lineCounts.Length &&
      (forall m :: 0 <= m < i ==>
        ids[m] == done[m].position && rotations[m] == done[m].rotation && lineCounts[m] == |done[m].lines|) &&
      lineInfo == LineSets(done)
    }

    /** One turn of loadFile's loop: the next piece, or the error that ends it. */
    method SaveStep(file: seq<byte>, ids: array<Int32>, rotations: array<Int32>, lineCounts: array<Int32>,
                    i: nat, pos: nat, ghost done: seq<SavePiece>)
      returns (stop: Option<DecodeError>, next: nat, ghost done': seq<SavePiece>)
      requires ids != lineCounts && ids != rotations && rotations != lineCounts
      requires i < ids.Length && i < rotations.Length && i < lineCounts.Length
      requires 2 <= |file| / 4 && i < Words(file)[1] <= MAX_INT32
      requires SaveLoop(file, ids, rotations, lineCounts, i, pos, done)
      modifies this`lineInfo, ids, rotations, lineCounts
      ensures stop.Some? ==> DecodeSave(file) == Err(stop.value)
      ensures stop.None? ==> SaveLoop(file, ids, rotations, lineCounts, i + 1, next, done')
    {
      ghost var w := Words(file);
      done' := done;
      var piece;
      stop, piece, next := ReadSavePiece(file, pos, ids, rotations, lineCounts, i);
      if stop.Some? {
        assert SavePieceFrom(w, pos).Err?;
        SaveProgressFails(w, i, pos, done);
        return;
      }
      lineInfo := lineInfo + [piece.lines];
      SaveProgressStep(w, i, pos, done, piece, next);
      LineSetsSnoc(done, piece);
      done' := done + [piece];
      assert forall m :: 0 <= m < i ==>
        ids[m] == old(ids[m]) && rotations[m] == old(rotations[m]) && lineCounts[m] == old(lineCounts[m]);
      assert forall m :: 0 <= m < i + 1 ==>
        ids[m] == done'[m].position && rotations[m] == done'[m].rotation && lineCounts[m] == |done'[m].lines|;
    }
  }

  // ------------------------------------------------------------- saveFile
  //
  // saveFile writes through an output stream; here the bytes written so far
  // are a sequence that each write extends.

  lemma SpellOne(u: Word32)
    ensures Spell([u]) == WordBytes(u)
  {
    assert [u][1..] == [];
  }

  /** The four coordinates of one segment, each as a float word. */
  method WriteLine(line: Line) returns (out: seq<byte>)
    ensures out == Spell(LineWords(line))
    ensures |out| == 16
  {
    ghost var w := LineWords(line);
    var tempCoordinateArray := [line.x0, line.y0, line.x1, line.y1];
    out := [];
    for k := 0 to 4
      invariant out == Spell(w[..k])
    {
      out := out + FloatToBytes(tempCoordinateArray[k]);
      assert w[..k + 1] == w[..k] + [w[k]];
      FormatLaws.SpellAppend(w[..k], [w[k]]);
      SpellOne(w[k]);
    }
    assert w[..4] == w;
  }

  /** A piece's segments, in their order. */
  method WriteLines(currentLines: seq<Line>) returns (out: seq<byte>)
    ensures out == Spell(LinesWords(currentLines))
  {
    out := [];
    for k := 0 to |currentLines|
      invariant out == Spell(LinesWords(currentLines[..k]))
    {
      var bytes := WriteLine(currentLines[k]);
      out := out + bytes;
      assert currentLines[..k + 1] == currentLines[..k] + [currentLines[k]];
      FormatLaws.LinesWordsSnoc(currentLines[..k], currentLines[k]);
      FormatLaws.SpellAppend(LinesWords(currentLines[..k]), LineWords(currentLines[k]));
    }
    assert currentLines[..|currentLines|] == currentLines;
  }

  /** One piece of the registry: the id of its container (getPosition), its
      current rotation, its segment count, then its segments. */
  method WritePiece(content: Content) returns (out: seq<byte>)
    requires content.parent != NoParent
    ensures out == Spell(SavePieceWords(Snapshot(content)))
  {
    var currentPosition := content.Position().value;
    out := IntToBytes(currentPosition);
    var currentRotation := content.CurrentRotation();
    out := out + IntToBytes(currentRotation);
    var currentLines := content.lines;
    out := out + IntToBytes(|currentLines|);
    var bytes := WriteLines(currentLines);
    out := out + bytes;
    ghost var head: seq<Word32> := [Unsigned(currentPosition), Unsigned(currentRotation), |currentLines|];
    FormatLaws.SpellAppend(head, LinesWords(currentLines));
    assert head == [head[0]] + ([head[1]] + [head[2]]);
    FormatLaws.SpellAppend([head[0]], [head[1]] + [head[2]]);
    FormatLaws.SpellAppend([head[1]], [head[2]]);
    SpellOne(head[0]);
    SpellOne(head[1]);
    SpellOne(head[2]);
  }

  /** The head of every save: the magic bytes CA FE DE ED, written one by
      one, then the piece count 16. */
  method WriteHeader() returns (out: seq<byte>)
    ensures out == Spell([SAVE_WORD, 16])
    ensures out[..4] == SAVE_MAGIC
  {
    var hexValues: seq<byte> := [0xCA, 0xFE, 0xDE, 0xED];
    out := [];
    for i := 0 to 4
      invariant out == hexValues[..i]
    {
      out := out + [hexValues[i]];
    }
    out := out + IntToBytes(16);
    FormatLaws.MagicBytes();
    FormatLaws.SpellAppend([SAVE_WORD], [16]);
    SpellOne(SAVE_WORD);
    SpellOne(16);
  }

  /** saveFile: the save magic CA FE DE ED, the count 16, then the first
      sixteen pieces of the registry in registry order. The result is the
      save image of their snapshots, and decoding it gives those snapshots
      back. */
  method SaveFile(contentList: seq<Content>) returns (out: seq<byte>)
    requires |contentList| >= 16
    requires forall j :: 0 <= j < 16 ==> contentList[j].parent != NoParent
    ensures out == SaveImage(Snapshots(contentList[..16]))
    ensures DecodeFile(out) == SaveDoc(Snapshots(contentList[..16]))
  {
    out := WriteHeader();
    var pieces := WritePieces(contentList);
    out := out + pieces;
    SavedWhole(Snapshots(contentList[..16]));
  }

  /** The loop of saveFile over the first sixteen pieces of the registry. */
  method WritePieces(contentList: seq<Content>) returns (out: seq<byte>)
    requires |contentList| >= 16
    requires forall j :: 0 <= j < 16 ==> contentList[j].parent != NoParent
    ensures out == Spell(SavePiecesWords(Snapshots(contentList[..16])))
  {
    ghost var ps := Snapshots(contentList[..16]);
    out := [];
    for j := 0 to 16
      invariant out == Spell(SavePiecesWords(ps[..j]))
    {
      var content := contentList[j];
      var bytes := WritePiece(content);
      out := out + bytes;
      SavedPrefixStep(ps, j);
    }
    assert ps[..16] == ps;
    assert Snapshots(contentList[..16]) == ps;
  }

  /** Writing piece j after pieces 0..j-1 spells pieces 0..j. */
  lemma SavedPrefixStep(ps: seq<SavePiece>, j: nat)
    requires j < |ps|
    ensures Spell(SavePiecesWords(ps[..j + 1])) == Spell(SavePiecesWords(ps[..j])) + Spell(SavePieceWords(ps[j]))
  {
    assert ps[..j + 1] == ps[..j] + [ps[j]];
    FormatLaws.SavePiecesWordsSnoc(ps[..j], ps[j]);
    FormatLaws.SpellAppend(SavePiecesWords(ps[..j]), SavePieceWords(ps[j]));
  }

  /** The header and all sixteen pieces make the save image, which decodes
      back to the pieces. */
  lemma SavedWhole(ps: seq<SavePiece>)
    requires |ps| == 16
    ensures Spell([SAVE_WORD, 16]) + Spell(SavePiecesWords(ps)) == SaveImage(ps)
    ensures DecodeFile(SaveImage(ps)) == SaveDoc(ps)
  {
    FormatLaws.SpellAppend([SAVE_WORD, 16], SavePiecesWords(ps));
    FormatLaws.SaveImageDecodes(ps, []);
    assert SaveImage(ps) + [] == SaveImage(ps);
  }
}
