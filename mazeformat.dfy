/** The layout of `.mze` files as RawFileHandler reads and writes it: a
    four-byte magic word, then big-endian int and float words.

      definition (CA FE BE EF): magic, N, then per piece:
        one word that is read and discarded, id, L, 4*L floats
      save (CA FE DE ED):       magic, N, then per piece:
        position, rotation, L, 4*L floats

    Every read the handler makes is a four-byte read at an offset that is a
    multiple of four, so a file is decoded here as the sequence of its whole
    32-bit words (`Words`): word k is bytes 4k..4k+3, and a read of a word
    the file does not wholly contain is a short read.

    The readers below are the specification of the handler's decoding loops
    and the writers the specification of saveFile; the laws relating them
    are in FormatLaws. */
module MazeFormat {
  import opened Conversions

  /** A Line2D.Float segment: (x0, y0) to (x1, y1). */
  datatype Line = Line(x0: Float32, y0: Float32, x1: Float32, y1: Float32)

  /** A piece's segments; their number is recorded in an int word. */
  type Segments = ls: seq<Line> | |ls| <= MAX_INT32

  /** A piece of a definition file: its id and its segments. */
  datatype DefPiece = DefPiece(id: Int32, lines: Segments)

  /** A piece of a saved game: the id of the container it sits in, its
      quarter-turn count (stored verbatim, no range check) and its segments. */
  datatype SavePiece = SavePiece(position: Int32, rotation: Int32, lines: Segments)

  /** Why a decode stopped. The handler itself never notices a short read
      (it ignores InputStream.read's count); Truncated is this model's
      explicit outcome for it. A negative count makes the handler's array
      allocation throw NegativeArraySizeException. */
  datatype DecodeError = Truncated | NegativeSize

  /** A decoded value and the words of the stream that follow it. */
  datatype Parsed<T> = Parsed(value: T, rest: seq<Word32>)

  datatype Result<T> = Ok(value: T) | Err(error: DecodeError)

  const DEFINITION_MAGIC: seq<byte> := [0xCA, 0xFE, 0xBE, 0xEF]
  const SAVE_MAGIC: seq<byte> := [0xCA, 0xFE, 0xDE, 0xED]
  const DEFINITION_WORD: Word32 := 0xCAFE_BEEF
  const SAVE_WORD: Word32 := 0xCAFE_DEED

  // ------------------------------------------------------------ words

  /** The whole 32-bit words of a file, in order; a trailing partial word is
      not one of them. */
  function Words(s: seq<byte>): (w: seq<Word32>)
    ensures |w| == |s| / 4
    decreases |s|
  {
    if |s| < 4 then [] else [WordOf(s[..4])] + Words(s[4..])
  }

  /** Word k of a file is its bytes 4k..4k+3, big-endian. */
  lemma {:induction false} WordsAt(s: seq<byte>, k: nat)
    requires k < |s| / 4
    ensures Words(s)[k] == WordOf(s[4 * k..4 * k + 4])
    decreases k
  {
    if k > 0 {
      WordsAt(s[4..], k - 1);
      assert s[4..][4 * (k - 1)..4 * (k - 1) + 4] == s[4 * k..4 * k + 4];
    }
  }

  /** The bytes of a word stream, each word big-endian. */
  function Spell(ws: seq<Word32>): (r: seq<byte>)
    ensures |r| == 4 * |ws|
  {
    if ws == [] then [] else WordBytes(ws[0]) + Spell(ws[1..])
  }

  // ---------------------------------------------------------- writing

  function LineWords(l: Line): (r: seq<Word32>)
  {
    [l.x0.bits, l.y0.bits, l.x1.bits, l.y1.bits]
  }

  function LinesWords(ls: seq<Line>): (r: seq<Word32>)
    ensures |r| == 4 * |ls|
  {
    if ls == [] then [] else LineWords(ls[0]) + LinesWords(ls[1..])
  }

  /** A saved piece: position, rotation, L, then the L segments. */
  function SavePieceWords(p: SavePiece): (r: seq<Word32>)
    ensures |r| == 3 + 4 * |p.lines|
  {
    [Unsigned(p.position), Unsigned(p.rotation), |p.lines|] + LinesWords(p.lines)
  }

  function SavePiecesWords(ps: seq<SavePiece>): (r: seq<Word32>)
  {
    if ps == [] then [] else SavePieceWords(ps[0]) + SavePiecesWords(ps[1..])
  }

  /** The words of a whole save file. */
  function SaveWords(ps: seq<SavePiece>): (r: seq<Word32>)
    requires |ps| <= MAX_INT32
  {
    [SAVE_WORD, |ps|] + SavePiecesWords(ps)
  }

  /** The bytes of a whole save file. */
  function SaveImage(ps: seq<SavePiece>): (r: seq<byte>)
    requires |ps| <= MAX_INT32
  {
    Spell(SaveWords(ps))
  }

  /** A definition piece: the word the reader discards, id, L, then the L
      segments. */
  function DefPieceWords(p: DefPiece, skip: Word32): (r: seq<Word32>)
    ensures |r| == 3 + 4 * |p.lines|
  {
    [skip, Unsigned(p.id), |p.lines|] + LinesWords(p.lines)
  }

  /** Definition pieces, each with its discarded word from `skipped`. */
  function DefPiecesWords(ps: seq<DefPiece>, skipped: seq<Word32>): (r: seq<Word32>)
    requires |skipped| == |ps|
  {
    if ps == [] then [] else DefPieceWords(ps[0], skipped[0]) + DefPiecesWords(ps[1..], skipped[1..])
  }

  /** The words of a whole definition file. Nothing in the program writes
      one; this is the reference layout the definition decoder is checked
      against. */
  function DefinitionWords(ps: seq<DefPiece>, skipped: seq<Word32>): (r: seq<Word32>)
    requires |ps| <= MAX_INT32 && |skipped| == |ps|
  {
    [DEFINITION_WORD, |ps|] + DefPiecesWords(ps, skipped)
  }

  function DefinitionImage(ps: seq<DefPiece>, skipped: seq<Word32>): (r: seq<byte>)
    requires |ps| <= MAX_INT32 && |skipped| == |ps|
  {
    Spell(DefinitionWords(ps, skipped))
  }

  // ---------------------------------------------------------- reading
  //
  // Each reader takes the words still to be read and returns what it read
  // together with the words that follow it, as the handler's input stream
  // moves on.

  /** One segment: four float words x0, y0, x1, y1 (convertToFloat). */
  function LineAt(w: seq<Word32>): (l: Line)
    requires 4 <= |w|
    ensures LineWords(l) == w[..4]
  {
    Line(Float32(w[0]), Float32(w[1]), Float32(w[2]), Float32(w[3]))
  }

  /** The `count` segments at the head of the stream. */
  function LinesFrom(w: seq<Word32>, count: nat): (ls: seq<Line>)
    requires 4 * count <= |w|
    ensures |ls| == count
    decreases count
  {
    if count == 0 then [] else [LineAt(w)] + LinesFrom(w[4..], count - 1)
  }

  /** A definition piece: a discarded word, id, L, then L segments. All three
      header words are read before the segment array is allocated, so a
      negative L is refused only once they are there. */
  function ParseDefPiece(w: seq<Word32>): (r: Result<Parsed<DefPiece>>)
    ensures r.Ok? ==> |r.value.rest| == |w| - 3 - 4 * |r.value.value.lines|
    ensures r.Err? ==> (r.error == NegativeSize <==> 3 <= |w| && w[2] > MAX_INT32)
  {
    if |w| < 3 then Err(Truncated)
    else if w[2] > MAX_INT32 then Err(NegativeSize)
    else if 3 + 4 * (w[2] as int) > |w| then Err(Truncated)
    else Ok(Parsed(DefPiece(Signed(w[1]), LinesFrom(w[3..], w[2])), w[3 + 4 * (w[2] as int)..]))
  }

  function ParseDefPieces(w: seq<Word32>, count: nat): (r: Result<Parsed<seq<DefPiece>>>)
    ensures r.Ok? ==> |r.value.value| == count && |r.value.rest| <= |w|
    decreases count
  {
    if count == 0 then Ok(Parsed([], w))
    else match ParseDefPiece(w)
      case Err(e) => Err(e)
      case Ok(first) =>
        match ParseDefPieces(first.rest, count - 1)
        case Err(e) => Err(e)
        case Ok(others) => Ok(Parsed([first.value] + others.value, others.rest))
  }

  /** The words of a definition file: the magic word (already checked by the
      dispatch and not read again), N, then N pieces. */
  function DecodeDefinitionWords(w: seq<Word32>): (r: Result<seq<DefPiece>>)
    ensures r.Ok? ==> 2 <= |w| && |r.value| == w[1]
    ensures r.Err? ==> (r.error == NegativeSize <== 2 <= |w| && w[1] > MAX_INT32)
  {
    if |w| < 2 then Err(Truncated)
    else if w[1] > MAX_INT32 then Err(NegativeSize)
    else match ParseDefPieces(w[2..], w[1])
      case Err(e) => Err(e)
      case Ok(pieces) => Ok(pieces.value)
  }

  /** A saved piece: position, rotation, L, then L segments; as for a
      definition piece, the header is read before the allocation. */
  function ParseSavePiece(w: seq<Word32>): (r: Result<Parsed<SavePiece>>)
    ensures r.Ok? ==> |r.value.rest| == |w| - 3 - 4 * |r.value.value.lines|
    ensures r.Err? ==> (r.error == NegativeSize <==> 3 <= |w| && w[2] > MAX_INT32)
  {
    if |w| < 3 then Err(Truncated)
    else if w[2] > MAX_INT32 then Err(NegativeSize)
    else if 3 + 4 * (w[2] as int) > |w| then Err(Truncated)
    else Ok(Parsed(SavePiece(Signed(w[0]), Signed(w[1]), LinesFrom(w[3..], w[2])), w[3 + 4 * (w[2] as int)..]))
  }

  function ParseSavePieces(w: seq<Word32>, count: nat): (r: Result<Parsed<seq<SavePiece>>>)
    ensures r.Ok? ==> |r.value.value| == count && |r.value.rest| <= |w|
    decreases count
  {
    if count == 0 then Ok(Parsed([], w))
    else match ParseSavePiece(w)
      case Err(e) => Err(e)
      case Ok(first) =>
        match ParseSavePieces(first.rest, count - 1)
        case Err(e) => Err(e)
        case Ok(others) => Ok(Parsed([first.value] + others.value, others.rest))
  }

  /** The words of a save file: the magic word is read again and ignored,
      then N and N pieces. */
  function DecodeSaveWords(w: seq<Word32>): (r: Result<seq<SavePiece>>)
    ensures r.Ok? ==> 2 <= |w| && |r.value| == w[1] <= MAX_INT32
    ensures r.Err? ==> (r.error == NegativeSize <== 2 <= |w| && w[1] > MAX_INT32)
  {
    if |w| < 2 then Err(Truncated)
    else if w[1] > MAX_INT32 then Err(NegativeSize)
    else match ParseSavePieces(w[2..], w[1])
      case Err(e) => Err(e)
      case Ok(pieces) => Ok(pieces.value)
  }

  /** A definition file, from its bytes. */
  function DecodeDefinition(s: seq<byte>): (r: Result<seq<DefPiece>>)
    ensures r.Ok? ==> 8 <= |s| && |r.value| <= MAX_INT32
  {
    DecodeDefinitionWords(Words(s))
  }

  /** A decoded definition has as many pieces as the int in bytes 4..7 says. */
  lemma DefinitionCount(s: seq<byte>)
    requires DecodeDefinition(s).Ok?
    ensures |DecodeDefinition(s).value| == BytesToInt(s[4..8])
  {
    WordsAt(s, 1);
  }

  /** A save file, from its bytes. */
  function DecodeSave(s: seq<byte>): (r: Result<seq<SavePiece>>)
    ensures r.Ok? ==> |r.value| <= MAX_INT32
  {
    DecodeSaveWords(Words(s))
  }

  /** Accumulation used by the decoding loops: the pieces read so far followed
      by what the rest of the stream decodes to. */
  function Prepend<T>(done: seq<T>, rest: Result<Parsed<seq<T>>>): Result<Parsed<seq<T>>>
  {
    match rest
    case Err(e) => Err(e)
    case Ok(p) => Ok(Parsed(done + p.value, p.rest))
  }

  // ---------------------------------------------------- magic dispatch

  /** What `inputStream.read(byteSection)` leaves in a fresh four-byte buffer:
      the first four bytes of the file, or fewer followed by the buffer's zeros. */
  function MagicWord(s: seq<byte>): (w: seq<byte>)
    ensures |w| == 4
  {
    if |s| >= 4 then s[..4] else s + seq(4 - |s|, _ => 0)
  }

  datatype Kind = DefinitionFile | SaveFile | UnknownFile

  /** parseBytes' dispatch on the hex rendering of the magic word. */
  function Classify(s: seq<byte>): Kind
  {
    var hex := HexOf(MagicWord(s));
    if hex == "CAFEDEED" then SaveFile
    else if hex == "CAFEBEEF" then DefinitionFile
    else UnknownFile
  }

  /** Everything one parse of a file yields. */
  datatype Decoded =
    | DefinitionDoc(defs: seq<DefPiece>)
    | SaveDoc(saved: seq<SavePiece>)
    | NotAMaze
    | Broken(kind: Kind, error: DecodeError)

  function DecodeFile(s: seq<byte>): Decoded
  {
    match Classify(s)
    case SaveFile => (match DecodeSave(s) case Ok(ps) => SaveDoc(ps) case Err(e) => Broken(SaveFile, e))
    case DefinitionFile =>
      (match DecodeDefinition(s) case Ok(ps) => DefinitionDoc(ps) case Err(e) => Broken(DefinitionFile, e))
    case UnknownFile => NotAMaze
  }

  // ----------------------- views of decoded pieces, as the handler's arrays hold them

  function DefIds(ps: seq<DefPiece>): (r: seq<Int32>)
    ensures |r| == |ps| && forall i :: 0 <= i < |ps| ==> r[i] == ps[i].id
  {
    seq(|ps|, i requires 0 <= i < |ps| => ps[i].id)
  }

  function DefLineCounts(ps: seq<DefPiece>): (r: seq<int>)
    ensures |r| == |ps| && forall i :: 0 <= i < |ps| ==> r[i] == |ps[i].lines|
  {
    seq(|ps|, i requires 0 <= i < |ps| => |ps[i].lines|)
  }

  function DefLineSets(ps: seq<DefPiece>): (r: seq<seq<Line>>)
    ensures |r| == |ps| && forall i :: 0 <= i < |ps| ==> r[i] == ps[i].lines
  {
    seq(|ps|, i requires 0 <= i < |ps| => ps[i].lines)
  }

  function Positions(ps: seq<SavePiece>): (r: seq<Int32>)
    ensures |r| == |ps| && forall i :: 0 <= i < |ps| ==> r[i] == ps[i].position
  {
    seq(|ps|, i requires 0 <= i < |ps| => ps[i].position)
  }

  function Rotations(ps: seq<SavePiece>): (r: seq<Int32>)
    ensures |r| == |ps| && forall i :: 0 <= i < |ps| ==> r[i] == ps[i].rotation
  {
    seq(|ps|, i requires 0 <= i < |ps| => ps[i].rotation)
  }

  function LineCounts(ps: seq<SavePiece>): (r: seq<int>)
    ensures |r| == |ps| && forall i :: 0 <= i < |ps| ==> r[i] == |ps[i].lines|
  {
    seq(|ps|, i requires 0 <= i < |ps| => |ps[i].lines|)
  }

  function LineSets(ps: seq<SavePiece>): (r: seq<seq<Line>>)
    ensures |r| == |ps| && forall i :: 0 <= i < |ps| ==> r[i] == ps[i].lines
  {
    seq(|ps|, i requires 0 <= i < |ps| => ps[i].lines)
  }
}
