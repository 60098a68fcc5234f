/** Properties of the `.mze` layout: decoding what saveFile writes gives back
    what was written, a cut-off save is refused, the definition decoder reads
    exactly the documented layout (discarded word included), and the magic
    dispatch recognises exactly the two four-byte magic words. */
module FormatLaws {
  import opened Conversions
  import opened MazeFormat

  // ------------------------------------------------- bytes and words

  lemma {:induction false} SpellAt(ws: seq<Word32>, k: nat)
    requires k < |ws|
    ensures Spell(ws)[4 * k..4 * k + 4] == WordBytes(ws[k])
    decreases k
  {
    if k > 0 {
      SpellAt(ws[1..], k - 1);
      var tail := Spell(ws[1..]);
      assert Spell(ws) == WordBytes(ws[0]) + tail;
      SliceOfSlice(Spell(ws), 4, |Spell(ws)|, 4 * (k - 1), 4 * k);
    }
  }

  /** Spelling distributes over concatenation: bytes written word after word. */
  lemma {:induction false} SpellAppend(a: seq<Word32>, b: seq<Word32>)
    ensures Spell(a + b) == Spell(a) + Spell(b)
    decreases |a|
  {
    if a != [] {
      assert (a + b)[1..] == a[1..] + b;
      SpellAppend(a[1..], b);
    } else {
      assert a + b == b;
    }
  }

  /** One more segment written adds its four words. */
  lemma {:induction false} LinesWordsSnoc(ls: seq<Line>, l: Line)
    ensures LinesWords(ls + [l]) == LinesWords(ls) + LineWords(l)
    decreases |ls|
  {
    if ls != [] {
      assert (ls + [l])[1..] == ls[1..] + [l];
      LinesWordsSnoc(ls[1..], l);
    } else {
      assert ls + [l] == [l];
    }
  }

  /** One more piece written adds its words. */
  lemma {:induction false} SavePiecesWordsSnoc(ps: seq<SavePiece>, p: SavePiece)
    ensures SavePiecesWords(ps + [p]) == SavePiecesWords(ps) + SavePieceWords(p)
    decreases |ps|
  {
    if ps != [] {
      assert (ps + [p])[1..] == ps[1..] + [p];
      SavePiecesWordsSnoc(ps[1..], p);
    } else {
      assert ps + [p] == [p];
    }
  }

  /** Reading back the words of a spelt stream gives the stream, whatever
      bytes follow it. */
  lemma {:induction false} WordsOfSpell(ws: seq<Word32>, rest: seq<byte>)
    ensures Words(Spell(ws) + rest) == ws + Words(rest)
    decreases |ws|
  {
    if ws != [] {
      var s := Spell(ws) + rest;
      var tail := Spell(ws[1..]) + rest;
      assert s == WordBytes(ws[0]) + tail;
      assert s[..4] == WordBytes(ws[0]) && s[4..] == tail;
      WordOfWordBytes(ws[0]);
      WordsOfSpell(ws[1..], rest);
      assert ws == [ws[0]] + ws[1..];
    } else {
      assert Spell(ws) + rest == rest;
    }
  }

  /** The words of a prefix are a prefix of the words. */
  lemma {:induction false} WordsPrefix(s: seq<byte>, n: nat)
    requires n <= |s|
    ensures Words(s[..n]) == Words(s)[..n / 4]
    decreases n
  {
    if n >= 4 {
      assert s[..n][..4] == s[..4];
      assert s[..n][4..] == s[4..][..n - 4];
      WordsPrefix(s[4..], n - 4);
      assert (n - 4) / 4 == n / 4 - 1;
    }
  }

  /** The first n words of a file, spelt out again, are its first 4n bytes. */
  lemma {:induction false} SpellWords(s: seq<byte>, n: nat)
    requires n <= |s| / 4
    ensures Spell(Words(s)[..n]) == s[..4 * n]
    decreases n
  {
    if n > 0 {
      var w := Words(s);
      var t := s[4..];
      SpellWords(t, n - 1);
      assert Words(t)[..n - 1] == w[..n][1..];
      WordBytesOfWordOf(s[..4]);
      assert s[..4 * n] == s[..4] + t[..4 * (n - 1)];
    }
  }

  lemma MagicBytes()
    ensures WordBytes(SAVE_WORD) == SAVE_MAGIC && WordOf(SAVE_MAGIC) == SAVE_WORD
    ensures WordBytes(DEFINITION_WORD) == DEFINITION_MAGIC && WordOf(DEFINITION_MAGIC) == DEFINITION_WORD
  {
    assert WordOf(SAVE_MAGIC) == ((0xCA * 256 + 0xFE) * 256 + 0xDE) * 256 + 0xED == SAVE_WORD;
    assert WordOf(DEFINITION_MAGIC) == ((0xCA * 256 + 0xFE) * 256 + 0xBE) * 256 + 0xEF == DEFINITION_WORD;
    WordBytesOfWordOf(SAVE_MAGIC);
    WordBytesOfWordOf(DEFINITION_MAGIC);
  }

  // ----------------------------------------------------- round trips

  /** Segments come back in file order, bit pattern for bit pattern. */
  lemma {:induction false} LinesRoundTrip(ls: seq<Line>, tail: seq<Word32>)
    ensures LinesFrom(LinesWords(ls) + tail, |ls|) == ls
    decreases |ls|
  {
    if ls != [] {
      var w := LinesWords(ls) + tail;
      assert w == LineWords(ls[0]) + (LinesWords(ls[1..]) + tail);
      assert w[4..] == LinesWords(ls[1..]) + tail;
      LinesRoundTrip(ls[1..], tail);
      assert w[..4] == LineWords(ls[0]);
      assert [ls[0]] + ls[1..] == ls;
    }
  }

  lemma SavePieceRoundTrip(p: SavePiece, tail: seq<Word32>)
    ensures ParseSavePiece(SavePieceWords(p) + tail) == Ok(Parsed(p, tail))
  {
    var w := SavePieceWords(p) + tail;
    var n := |p.lines|;
    assert w[0] == Unsigned(p.position) && w[1] == Unsigned(p.rotation) && w[2] == n;
    assert w[3..] == LinesWords(p.lines) + tail;
    LinesRoundTrip(p.lines, tail);
    assert w[3 + 4 * n..] == tail;
    SignedUnsigned(p.position);
    SignedUnsigned(p.rotation);
  }

  /** One step of ParseSavePieces: a first piece, then the others. */
  lemma SavePiecesStep(w: seq<Word32>, count: nat, p: SavePiece, mid: seq<Word32>, others: seq<SavePiece>, tail: seq<Word32>)
    requires count > 0 && ParseSavePiece(w) == Ok(Parsed(p, mid))
    requires ParseSavePieces(mid, count - 1) == Ok(Parsed(others, tail))
    ensures ParseSavePieces(w, count) == Ok(Parsed([p] + others, tail))
  {
  }

  lemma SavePiecesExtend(p: SavePiece, ps: seq<SavePiece>, tail: seq<Word32>)
    requires ParseSavePieces(SavePiecesWords(ps) + tail, |ps|) == Ok(Parsed(ps, tail))
    ensures ParseSavePieces(SavePiecesWords([p] + ps) + tail, |ps| + 1) == Ok(Parsed([p] + ps, tail))
  {
    var mid := SavePiecesWords(ps) + tail;
    assert ([p] + ps)[1..] == ps;
    assert SavePiecesWords([p] + ps) + tail == SavePieceWords(p) + mid;
    SavePieceRoundTrip(p, mid);
    SavePiecesStep(SavePieceWords(p) + mid, |ps| + 1, p, mid, ps, tail);
  }

  lemma {:induction false} SavePiecesRoundTrip(ps: seq<SavePiece>, tail: seq<Word32>)
    ensures ParseSavePieces(SavePiecesWords(ps) + tail, |ps|) == Ok(Parsed(ps, tail))
    decreases |ps|
  {
    if ps != [] {
      SavePiecesRoundTrip(ps[1..], tail);
      SavePiecesExtend(ps[0], ps[1..], tail);
      assert [ps[0]] + ps[1..] == ps;
    } else {
      assert SavePiecesWords(ps) + tail == tail;
    }
  }

  lemma SaveWordsRoundTrip(ps: seq<SavePiece>, tail: seq<Word32>)
    requires |ps| <= MAX_INT32
    ensures DecodeSaveWords(SaveWords(ps) + tail) == Ok(ps)
  {
    var w := SaveWords(ps) + tail;
    assert w[1] == |ps|;
    assert w[2..] == SavePiecesWords(ps) + tail;
    SavePiecesRoundTrip(ps, tail);
  }

  /** Round trip: decoding a save image, followed by anything at all, gives
      back piece for piece the positions, rotations and segments encoded. */
  lemma SaveRoundTrip(ps: seq<SavePiece>, rest: seq<byte>)
    requires |ps| <= MAX_INT32
    ensures DecodeSave(SaveImage(ps) + rest) == Ok(ps)
  {
    WordsOfSpell(SaveWords(ps), rest);
    SaveWordsRoundTrip(ps, Words(rest));
  }

  lemma DefPieceRoundTrip(p: DefPiece, skip: Word32, tail: seq<Word32>)
    ensures ParseDefPiece(DefPieceWords(p, skip) + tail) == Ok(Parsed(p, tail))
  {
    var w := DefPieceWords(p, skip) + tail;
    var n := |p.lines|;
    assert w[1] == Unsigned(p.id) && w[2] == n;
    assert w[3..] == LinesWords(p.lines) + tail;
    LinesRoundTrip(p.lines, tail);
    assert w[3 + 4 * n..] == tail;
    SignedUnsigned(p.id);
  }

  /** One step of ParseDefPieces: a first piece, then the others. */
  lemma DefPiecesStep(w: seq<Word32>, count: nat, p: DefPiece, mid: seq<Word32>, others: seq<DefPiece>, tail: seq<Word32>)
    requires count > 0 && ParseDefPiece(w) == Ok(Parsed(p, mid))
    requires ParseDefPieces(mid, count - 1) == Ok(Parsed(others, tail))
    ensures ParseDefPieces(w, count) == Ok(Parsed([p] + others, tail))
  {
  }

  lemma DefPiecesExtend(p: DefPiece, skip: Word32, ps: seq<DefPiece>, skipped: seq<Word32>, tail: seq<Word32>)
    requires |skipped| == |ps|
    requires ParseDefPieces(DefPiecesWords(ps, skipped) + tail, |ps|) == Ok(Parsed(ps, tail))
    ensures ParseDefPieces(DefPiecesWords([p] + ps, [skip] + skipped) + tail, |ps| + 1) == Ok(Parsed([p] + ps, tail))
  {
    var mid := DefPiecesWords(ps, skipped) + tail;
    assert ([p] + ps)[1..] == ps && ([skip] + skipped)[1..] == skipped;
    assert DefPiecesWords([p] + ps, [skip] + skipped) + tail == DefPieceWords(p, skip) + mid;
    DefPieceRoundTrip(p, skip, mid);
    DefPiecesStep(DefPieceWords(p, skip) + mid, |ps| + 1, p, mid, ps, tail);
  }

  lemma {:induction false} DefPiecesRoundTrip(ps: seq<DefPiece>, skipped: seq<Word32>, tail: seq<Word32>)
    requires |skipped| == |ps|
    ensures ParseDefPieces(DefPiecesWords(ps, skipped) + tail, |ps|) == Ok(Parsed(ps, tail))
    decreases |ps|
  {
    if ps != [] {
      DefPiecesRoundTrip(ps[1..], skipped[1..], tail);
      DefPiecesExtend(ps[0], skipped[0], ps[1..], skipped[1..], tail);
      assert [ps[0]] + ps[1..] == ps && [skipped[0]] + skipped[1..] == skipped;
    } else {
      assert DefPiecesWords(ps, skipped) + tail == tail;
    }
  }

  lemma DefinitionWordsRoundTrip(ps: seq<DefPiece>, skipped: seq<Word32>, tail: seq<Word32>)
    requires |ps| <= MAX_INT32 && |skipped| == |ps|
    ensures DecodeDefinitionWords(DefinitionWords(ps, skipped) + tail) == Ok(ps)
  {
    var w := DefinitionWords(ps, skipped) + tail;
    assert w[1] == |ps|;
    assert w[2..] == DefPiecesWords(ps, skipped) + tail;
    DefPiecesRoundTrip(ps, skipped, tail);
  }

  /** Definition layout: a stream laid out as magic, N, and per piece one
      arbitrary word, id, L and 4*L floats decodes to exactly those pieces,
      whatever the discarded words hold and whatever bytes follow. */
  lemma DefinitionRoundTrip(ps: seq<DefPiece>, skipped: seq<Word32>, rest: seq<byte>)
    requires |ps| <= MAX_INT32 && |skipped| == |ps|
    ensures DecodeDefinition(DefinitionImage(ps, skipped) + rest) == Ok(ps)
  {
    WordsOfSpell(DefinitionWords(ps, skipped), rest);
    DefinitionWordsRoundTrip(ps, skipped, Words(rest));
  }

  // ------------------------------------------ what the readers consume

  /** The segments read are exactly the words consumed. */
  lemma {:induction false} LinesConsumed(w: seq<Word32>, count: nat)
    requires 4 * count <= |w|
    ensures LinesWords(LinesFrom(w, count)) + w[4 * count..] == w
    decreases count
  {
    if count > 0 {
      LinesConsumed(w[4..], count - 1);
      assert w[4..][4 * (count - 1)..] == w[4 * count..];
      assert LinesFrom(w, count)[1..] == LinesFrom(w[4..], count - 1);
      assert w == w[..4] + w[4..];
    }
  }

  lemma SavePieceConsumed(w: seq<Word32>)
    requires ParseSavePiece(w).Ok?
    ensures var r := ParseSavePiece(w).value; SavePieceWords(r.value) + r.rest == w
  {
    var n: nat := w[2];
    var r := ParseSavePiece(w).value;
    var lines := LinesFrom(w[3..], n);
    assert r == Parsed(SavePiece(Signed(w[0]), Signed(w[1]), lines), w[3 + 4 * n..]);
    UnsignedSigned(w[0]);
    UnsignedSigned(w[1]);
    assert SavePieceWords(r.value) == [w[0], w[1], w[2]] + LinesWords(lines);
    PieceSplit(w, n);
  }

  /** A piece's stream: three header words, the segments read, and the rest. */
  lemma PieceSplit(w: seq<Word32>, n: nat)
    requires 3 + 4 * n <= |w|
    ensures [w[0], w[1], w[2]] + LinesWords(LinesFrom(w[3..], n)) + w[3 + 4 * n..] == w
  {
    LinesConsumed(w[3..], n);
    assert w[3..][4 * n..] == w[3 + 4 * n..];
    assert w[..3] == [w[0], w[1], w[2]];
    assert w == w[..3] + w[3..];
  }

  /** The pieces read are exactly the words consumed. */
  lemma {:induction false} SavePiecesConsumed(w: seq<Word32>, count: nat)
    requires ParseSavePieces(w, count).Ok?
    ensures var r := ParseSavePieces(w, count).value; SavePiecesWords(r.value) + r.rest == w
    decreases count
  {
    if count > 0 {
      var first := ParseSavePiece(w).value;
      var r := ParseSavePieces(w, count).value;
      SavePieceConsumed(w);
      SavePiecesConsumed(first.rest, count - 1);
      assert r.value[0] == first.value && r.value[1..] == ParseSavePieces(first.rest, count - 1).value.value;
    }
  }

  /** A decoded save is exactly the word prefix it was read from, magic aside. */
  lemma SaveWordsConsumed(w: seq<Word32>)
    requires DecodeSaveWords(w).Ok?
    ensures var ps := DecodeSaveWords(w).value;
      2 + |SavePiecesWords(ps)| <= |w| && w[..2 + |SavePiecesWords(ps)|] == [w[0], |ps|] + SavePiecesWords(ps)
  {
    var ps := DecodeSaveWords(w).value;
    var r := ParseSavePieces(w[2..], w[1]).value;
    assert r.value == ps;
    SavePiecesConsumed(w[2..], w[1]);
    var m := |SavePiecesWords(ps)|;
    assert w[2..] == SavePiecesWords(ps) + r.rest;
    assert w[2..][..m] == SavePiecesWords(ps);
    assert w[..2 + m] == w[..2] + w[2..][..m];
    assert w[..2] == [w[0], |ps|];
  }

  lemma DefPieceConsumed(w: seq<Word32>)
    requires ParseDefPiece(w).Ok?
    ensures var r := ParseDefPiece(w).value; DefPieceWords(r.value, w[0]) + r.rest == w
  {
    var n: nat := w[2];
    var r := ParseDefPiece(w).value;
    var lines := LinesFrom(w[3..], n);
    assert r == Parsed(DefPiece(Signed(w[1]), lines), w[3 + 4 * n..]);
    UnsignedSigned(w[1]);
    assert DefPieceWords(r.value, w[0]) == [w[0], w[1], w[2]] + LinesWords(lines);
    PieceSplit(w, n);
  }

  /** The definition pieces read, each with the word the reader discarded
      before it, are exactly the words consumed. */
  lemma {:induction false} DefPiecesConsumed(w: seq<Word32>, count: nat) returns (skipped: seq<Word32>)
    requires ParseDefPieces(w, count).Ok?
    ensures |skipped| == count
    ensures var r := ParseDefPieces(w, count).value; DefPiecesWords(r.value, skipped) + r.rest == w
    decreases count
  {
    skipped := [];
    if count > 0 {
      var first := ParseDefPiece(w).value;
      var r := ParseDefPieces(w, count).value;
      DefPieceConsumed(w);
      var others := DefPiecesConsumed(first.rest, count - 1);
      skipped := [w[0]] + others;
      assert r.value[0] == first.value && r.value[1..] == ParseDefPieces(first.rest, count - 1).value.value;
      assert skipped[0] == w[0] && skipped[1..] == others;
    }
  }

  /** A decoded definition is exactly the word prefix it was read from, magic
      aside, for the discarded words the reader passed over. */
  lemma DefinitionWordsConsumed(w: seq<Word32>) returns (skipped: seq<Word32>)
    requires DecodeDefinitionWords(w).Ok?
    ensures var ps := DecodeDefinitionWords(w).value;
      |skipped| == |ps| && 2 + |DefPiecesWords(ps, skipped)| <= |w| &&
      w[..2 + |DefPiecesWords(ps, skipped)|] == [w[0], |ps|] + DefPiecesWords(ps, skipped)
  {
    var ps := DecodeDefinitionWords(w).value;
    var r := ParseDefPieces(w[2..], w[1]).value;
    assert r.value == ps;
    skipped := DefPiecesConsumed(w[2..], w[1]);
    var m := |DefPiecesWords(ps, skipped)|;
    assert w[2..] == DefPiecesWords(ps, skipped) + r.rest;
    assert w[2..][..m] == DefPiecesWords(ps, skipped);
    assert w[..2 + m] == w[..2] + w[2..][..m];
    assert w[..2] == [w[0], |ps|];
  }

  // ------------------------------------------------------- dispatch

  lemma MagicHex()
    ensures HexOf(SAVE_MAGIC) == "CAFEDEED"
    ensures HexOf(DEFINITION_MAGIC) == "CAFEBEEF"
  {
    assert HexOf([0xED]) == "ED";
    assert HexOf([0xDE, 0xED]) == "DEED";
    assert HexOf([0xFE, 0xDE, 0xED]) == "FEDEED";
    assert HexOf([0xEF]) == "EF";
    assert HexOf([0xBE, 0xEF]) == "BEEF";
    assert HexOf([0xFE, 0xBE, 0xEF]) == "FEBEEF";
  }

  /** Magic dispatch: a file is taken for a save exactly when its first four
      bytes are CA FE DE ED, for a definition exactly when they are
      CA FE BE EF, and for neither otherwise; a file shorter than four bytes
      is never recognised. */
  lemma ClassifyByMagic(s: seq<byte>)
    ensures Classify(s) == SaveFile <==> |s| >= 4 && s[..4] == SAVE_MAGIC
    ensures Classify(s) == DefinitionFile <==> |s| >= 4 && s[..4] == DEFINITION_MAGIC
    ensures |s| < 4 ==> Classify(s) == UnknownFile
  {
    MagicHex();
    var m := MagicWord(s);
    if HexOf(m) == "CAFEDEED" {
      HexOfInjective(m, SAVE_MAGIC);
    }
    if HexOf(m) == "CAFEBEEF" {
      HexOfInjective(m, DEFINITION_MAGIC);
    }
    if |s| < 4 {
      assert m[3] == 0;
    }
  }

  /** What saveFile writes is recognised as a save and decodes to what was saved. */
  lemma SaveImageDecodes(ps: seq<SavePiece>, rest: seq<byte>)
    requires |ps| <= MAX_INT32
    ensures Classify(SaveImage(ps) + rest) == SaveFile
    ensures DecodeFile(SaveImage(ps) + rest) == SaveDoc(ps)
  {
    var s := SaveImage(ps) + rest;
    MagicBytes();
    assert SaveImage(ps) == WordBytes(SAVE_WORD) + Spell(SaveWords(ps)[1..]);
    assert s[..4] == SAVE_MAGIC;
    ClassifyByMagic(s);
    SaveRoundTrip(ps, rest);
  }

  /** A definition laid out as documented is recognised and decoded as one. */
  lemma DefinitionImageDecodes(ps: seq<DefPiece>, skipped: seq<Word32>, rest: seq<byte>)
    requires |ps| <= MAX_INT32 && |skipped| == |ps|
    ensures DecodeFile(DefinitionImage(ps, skipped) + rest) == DefinitionDoc(ps)
  {
    var s := DefinitionImage(ps, skipped) + rest;
    MagicBytes();
    assert DefinitionImage(ps, skipped) == WordBytes(DEFINITION_WORD) + Spell(DefinitionWords(ps, skipped)[1..]);
    assert s[..4] == DEFINITION_MAGIC;
    ClassifyByMagic(s);
    DefinitionRoundTrip(ps, skipped, rest);
  }

  /** The converse of the round trip: a save file that decodes to ps starts
      with exactly the image of ps. */
  lemma DecodedSaveIsImage(s: seq<byte>, ps: seq<SavePiece>)
    requires Classify(s) == SaveFile && DecodeSave(s) == Ok(ps)
    ensures |SaveImage(ps)| <= |s| && s[..|SaveImage(ps)|] == SaveImage(ps)
  {
    ClassifyByMagic(s);
    MagicBytes();
    var w := Words(s);
    SaveWordsConsumed(w);
    assert w[0] == WordOf(s[..4]) == SAVE_WORD;
    SpellWords(s, |SaveWords(ps)|);
  }

  /** The converse of the definition round trip: a definition file that
      decodes to ps starts with exactly the image of ps, for the words the
      reader discarded. */
  lemma DecodedDefinitionIsImage(s: seq<byte>, ps: seq<DefPiece>) returns (skipped: seq<Word32>)
    requires Classify(s) == DefinitionFile && DecodeDefinition(s) == Ok(ps)
    ensures |skipped| == |ps|
    ensures |DefinitionImage(ps, skipped)| <= |s| && s[..|DefinitionImage(ps, skipped)|] == DefinitionImage(ps, skipped)
  {
    ClassifyByMagic(s);
    MagicBytes();
    var w := Words(s);
    skipped := DefinitionWordsConsumed(w);
    assert w[0] == WordOf(s[..4]) == DEFINITION_WORD;
    SpellWords(s, |DefinitionWords(ps, skipped)|);
  }

  /** Save images are prefix-free: one that begins another is that one. */
  lemma SaveWordsPrefixFree(ps: seq<SavePiece>, qs: seq<SavePiece>, tail: seq<Word32>)
    requires |ps| <= MAX_INT32 && |qs| <= MAX_INT32
    requires SaveWords(ps) == SaveWords(qs) + tail
    ensures ps == qs && tail == []
  {
    SaveWordsRoundTrip(qs, tail);
    SaveWordsRoundTrip(ps, []);
    assert SaveWords(ps) + [] == SaveWords(ps);
  }

  /** A save cut short anywhere is refused: no proper prefix of a save
      image decodes. */
  lemma TruncatedSaveRefused(ps: seq<SavePiece>, k: nat)
    requires |ps| <= MAX_INT32 && k < |SaveImage(ps)|
    ensures DecodeSave(SaveImage(ps)[..k]).Err?
  {
    var img := SaveImage(ps);
    var sw := SaveWords(ps);
    WordsOfSpell(sw, []);
    assert img + [] == img;
    WordsPrefix(img, k);
    assert Words(img[..k]) == sw[..k / 4];
    SaveWordsPrefixRefused(ps, k / 4);
  }

  /** No proper prefix of a save's words decodes. */
  lemma SaveWordsPrefixRefused(ps: seq<SavePiece>, n: nat)
    requires |ps| <= MAX_INT32 && n < |SaveWords(ps)|
    ensures DecodeSaveWords(SaveWords(ps)[..n]).Err?
  {
    var sw := SaveWords(ps);
    var u := sw[..n];
    if DecodeSaveWords(u).Ok? {
      var qs := DecodeSaveWords(u).value;
      var m := |SaveWords(qs)|;
      SaveWordsConsumed(u);
      assert u[0] == SAVE_WORD;
      assert u[..m] == SaveWords(qs);
      assert sw[..m] == u[..m];
      assert sw == sw[..m] + sw[m..];
      SaveWordsPrefixFree(ps, qs, sw[m..]);
      assert false;
    }
  }

  /** A save whose piece count is negative is refused as the handler's array
      allocation would refuse it. */
  lemma NegativeSaveCountRefused(s: seq<byte>)
    requires |s| >= 8 && s[..4] == SAVE_MAGIC && BytesToInt(s[4..8]) < 0
    ensures DecodeFile(s) == Broken(SaveFile, NegativeSize)
  {
    ClassifyByMagic(s);
    assert Words(s)[1] == WordOf(s[4..8]);
  }

  /** Rotations are stored verbatim: a save whose rotation word is 7 (or any
      other int) decodes with that rotation, unclamped. */
  lemma RotationStoredVerbatim(position: Int32, rotation: Int32, lines: Segments)
    ensures DecodeSave(SaveImage([SavePiece(position, rotation, lines)])) == Ok([SavePiece(position, rotation, lines)])
  {
    var ps := [SavePiece(position, rotation, lines)];
    SaveRoundTrip(ps, []);
    assert SaveImage(ps) + [] == SaveImage(ps);
  }
}
