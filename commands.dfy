/**
 * The closed set of tile commands (`vgerOp` and the `vgerCmd*` records) and
 * the byte image each record has in a tile's buffer. A record starts with its
 * 4-byte `vgerOp` tag; `float2` fields are 8-byte aligned, so records with a
 * point have 4 bytes of padding after the tag. The consumer side, which reads
 * records back by their tag, is given here as `ReadCommand` and `DecodeFrom`.
 */
module Commands {
  import opened Wrappers
  import opened Bytes

  /** `tileBufSize`: the capacity in bytes of one tile's command buffer. */
  const TileBufSize: nat := 64

  /** `vgerOp`, the discriminator stored first in every record. */
  datatype Op = OpEnd | OpLine | OpBez | OpSolid | OpSegment

  /** The enumerator values of `vgerOp`, in declaration order from 0, as stored. */
  function OpCode(op: Op): Word
  {
    match op
    case OpEnd => SmallWord(0)
    case OpLine => SmallWord(1)
    case OpBez => SmallWord(2)
    case OpSolid => SmallWord(3)
    case OpSegment => SmallWord(4)
  }

  /** The discriminator stored as `w`, if its value is one of the enumerators. */
  function OpFromCode(w: Word): (r: Option<Op>)
    ensures r.Some? ==> OpCode(r.value) == w
  {
    if w.b1 != 0 || w.b2 != 0 || w.b3 != 0 then None
    else if w.b0 == 0 then Some(OpEnd)
    else if w.b0 == 1 then Some(OpLine)
    else if w.b0 == 2 then Some(OpBez)
    else if w.b0 == 3 then Some(OpSolid)
    else if w.b0 == 4 then Some(OpSegment)
    else None
  }

  /**
   * A stored word names a discriminator exactly when its unsigned value is
   * below 5, that is, exactly when some enumerator is stored as it.
   */
  lemma OpFromCodeRange(w: Word)
    ensures OpFromCode(w).Some? <==> Unsigned(w) < 5
    ensures OpFromCode(w).None? <==> forall op: Op :: OpCode(op) != w
  {
  }

  /** The codes are pairwise distinct (as numbers too), and each is read back as its own discriminator. */
  lemma OpCodeRoundTrip(op: Op, other: Op)
    ensures OpFromCode(OpCode(op)) == Some(op)
    ensures OpCode(op) == OpCode(other) <==> op == other
    ensures Unsigned(OpCode(op)) == Unsigned(OpCode(other)) <==> op == other
  {
  }

  /** A `float2`, both coordinates kept as opaque bit patterns. */
  datatype Point2 = Point2(x: Word, y: Word)

  /** One record: `vgerCmdSegment`, `vgerCmdLineFill`, `vgerCmdBezFill`, `vgerCmdSolid` or the bare `vgerOpEnd`. */
  datatype Command =
    | Segment(a: Point2, b: Point2, width: Word)
    | LineFill(a: Point2, b: Point2)
    | BezFill(a: Point2, b: Point2, c: Point2)
    | Solid(color: Word)  // a C `int` `x` is stored as `Int32Word(x)` and read as `Int32Value(color)`
    | End

  /** The tag each record is built with. */
  function OpOf(c: Command): Op
  {
    match c
    case Segment(_, _, _) => OpSegment
    case LineFill(_, _) => OpLine
    case BezFill(_, _, _) => OpBez
    case Solid(_) => OpSolid
    case End => OpEnd
  }

  /** `sizeof` of the record a tag introduces. */
  function OpSize(op: Op): nat
  {
    match op
    case OpSegment => 32
    case OpLine => 24
    case OpBez => 32
    case OpSolid => 8
    case OpEnd => WordSize
  }

  /** How many 4-byte words a record of kind `op` spans. */
  function OpWords(op: Op): (n: nat)
    ensures 4 * n == OpSize(op)
  {
    match op
    case OpSegment => 8
    case OpLine => 6
    case OpBez => 8
    case OpSolid => 2
    case OpEnd => 1
  }

  /** `sizeof` of a record: fixed by its tag alone, never smaller than the tag itself. */
  function Size(c: Command): (n: nat)
    ensures n == OpSize(OpOf(c))
    ensures WordSize <= n <= TileBufSize / 2
  {
    match c
    case Segment(_, _, _) => 32
    case LineFill(_, _) => 24
    case BezFill(_, _, _) => 32
    case Solid(_) => 8
    case End => WordSize
  }

  /**
   * The padding this model writes: zero. C leaves padding bytes unspecified,
   * and `ReadPadded` shows that no reader depends on them.
   */
  const Pad: Word := Word(0, 0, 0, 0)

  /**
   * The fields of a record in layout order, one 4-byte word each: the tag,
   * the padding `p1` that puts the points on 8-byte boundaries, the fields,
   * and for a segment the trailing padding `p2` that rounds it up to 32 bytes.
   */
  function Layout(c: Command, p1: Word, p2: Word): seq<Word>
  {
    var tag := OpCode(OpOf(c));
    match c
    case Segment(a, b, width) => [tag, p1, a.x, a.y, b.x, b.y, width, p2]
    case LineFill(a, b) => [tag, p1, a.x, a.y, b.x, b.y]
    case BezFill(a, b, p) => [tag, p1, a.x, a.y, b.x, b.y, p.x, p.y]
    case Solid(color) => [tag, color]
    case End => [tag]
  }

  /** The words of a record as this model writes it, padding zero. */
  function Words(c: Command): seq<Word>
  {
    Layout(c, Pad, Pad)
  }

  /** The bytes the record occupies in the buffer: exactly its size. */
  function Encode(c: Command): (r: seq<bv8>)
    ensures |r| == Size(c)
  {
    EncodeWords(Words(c))
  }

  /** Why a buffer could not be read. */
  datatype DecodeError =
    | Truncated                      // a record runs past the end of the buffer
    | UnknownDiscriminator(code: Word)  // the tag is not a `vgerOp`
    | Unterminated                   // the buffer ends without a `vgerOpEnd`

  /**
   * The record of kind `op` whose words are `ws`: a point is two consecutive
   * words, and the fields sit at the word indexes `Words` gives them
   * (points from byte 8, the third field from byte 24, the colour at byte 4).
   */
  function FromWords(op: Op, ws: seq<Word>): Command
    requires |ws| == OpWords(op)
  {
    match op
    case OpSegment => Segment(Point2(ws[2], ws[3]), Point2(ws[4], ws[5]), ws[6])
    case OpLine => LineFill(Point2(ws[2], ws[3]), Point2(ws[4], ws[5]))
    case OpBez => BezFill(Point2(ws[2], ws[3]), Point2(ws[4], ws[5]), Point2(ws[6], ws[7]))
    case OpSolid => Solid(ws[1])
    case OpEnd => End
  }

  /** A record is rebuilt from its own words, whatever its padding holds. */
  lemma FieldsRoundTrip(c: Command, p1: Word, p2: Word)
    ensures |Layout(c, p1, p2)| == OpWords(OpOf(c)) && FromWords(OpOf(c), Layout(c, p1, p2)) == c
  {
  }

  /** Reads the record at `off`: its tag decides its shape and size. */
  function ReadCommand(bytes: seq<bv8>, off: nat): Result<Command, DecodeError>
  {
    if off + WordSize > |bytes| then Err(Truncated)
    else
      var code := WordAt(bytes, off);
      match OpFromCode(code)
      case None => Err(UnknownDiscriminator(code))
      case Some(op) =>
        if off + OpSize(op) > |bytes| then Err(Truncated)
        else Ok(FromWords(op, WordsAt(bytes, off, OpWords(op))))
  }

  /** A record that is read lies inside the buffer and carries the tag it was read by. */
  lemma ReadCommandFits(bytes: seq<bv8>, off: nat)
    ensures var r := ReadCommand(bytes, off);
            r.Ok? ==> off + Size(r.value) <= |bytes| && OpCode(OpOf(r.value)) == WordAt(bytes, off)
  {
  }

  /**
   * The reader's error cases, exactly: a record cut short by the end of the
   * buffer is `Truncated`, a tag outside `vgerOp` is `UnknownDiscriminator`,
   * and reading one record never reports a missing end marker.
   */
  lemma ReadCommandErrors(bytes: seq<bv8>, off: nat)
    ensures ReadCommand(bytes, off) == Err(Truncated) <==>
              off + WordSize > |bytes|
              || (OpFromCode(WordAt(bytes, off)).Some? && off + OpSize(OpFromCode(WordAt(bytes, off)).value) > |bytes|)
    ensures ReadCommand(bytes, off) == Err(UnknownDiscriminator(if off + WordSize <= |bytes| then WordAt(bytes, off) else SmallWord(0))) <==>
              off + WordSize <= |bytes| && OpFromCode(WordAt(bytes, off)).None?
    ensures ReadCommand(bytes, off) != Err(Unterminated)
  {
  }

  /** The tag of a stored record is read back as that record's discriminator. */
  lemma TagIn(bytes: seq<bv8>, off: nat, c: Command)
    requires off + Size(c) <= |bytes|
    requires bytes[off..off + Size(c)] == Encode(c)
    ensures off + WordSize <= |bytes| && WordAt(bytes, off) == OpCode(OpOf(c))
    ensures OpFromCode(WordAt(bytes, off)) == Some(OpOf(c))
  {
    StoredWords(bytes, off, Words(c));
    OpCodeRoundTrip(OpOf(c), OpOf(c));
  }

  /** The words of a stored record, whatever its padding holds, are read back as that record. */
  lemma StoredRecordWords(bytes: seq<bv8>, off: nat, c: Command, p1: Word, p2: Word)
    requires off + Size(c) <= |bytes|
    requires bytes[off..off + Size(c)] == EncodeWords(Layout(c, p1, p2))
    ensures off + OpSize(OpOf(c)) <= |bytes|
    ensures WordAt(bytes, off) == OpCode(OpOf(c))
    ensures FromWords(OpOf(c), WordsAt(bytes, off, OpWords(OpOf(c)))) == c
  {
    FieldsRoundTrip(c, p1, p2);
    StoredWords(bytes, off, Layout(c, p1, p2));
  }

  /**
   * Reading a record does not depend on its padding: an image with any words
   * `p1`, `p2` in the padding slots is read back as the record.
   */
  lemma ReadPadded(bytes: seq<bv8>, off: nat, c: Command, p1: Word, p2: Word)
    requires off + Size(c) <= |bytes|
    requires bytes[off..off + Size(c)] == EncodeWords(Layout(c, p1, p2))
    ensures ReadCommand(bytes, off) == Ok(c)
  {
    StoredRecordWords(bytes, off, c, p1, p2);
    OpCodeRoundTrip(OpOf(c), OpOf(c));
  }

  /**
   * Round trip: reading the buffer at the offset where a record's image was
   * stored yields the record, every field unchanged.
   */
  lemma ReadEncoded(bytes: seq<bv8>, off: nat, c: Command)
    requires off + Size(c) <= |bytes|
    requires bytes[off..off + Size(c)] == Encode(c)
    ensures ReadCommand(bytes, off) == Ok(c)
  {
    ReadPadded(bytes, off, c, Pad, Pad);
  }

  /** A record's image, read on its own, yields the record. */
  lemma ReadsOwnImage(c: Command)
    ensures ReadCommand(Encode(c), 0) == Ok(c)
  {
    assert Encode(c)[0..Size(c)] == Encode(c);
    ReadEncoded(Encode(c), 0, c);
  }

  /** Distinct records have distinct images. */
  lemma EncodeInjective(c: Command, d: Command)
    ensures Encode(c) == Encode(d) ==> c == d
  {
    ReadsOwnImage(c);
    ReadsOwnImage(d);
  }


  // A tile's command sequence: the records stored back to back from offset 0.

  /** The bytes that a sequence of records occupies. */
  function TotalSize(cmds: seq<Command>): nat
  {
    if cmds == [] then 0 else Size(cmds[0]) + TotalSize(cmds[1..])
  }

  /** The records' images, back to back and in order. */
  function EncodeAll(cmds: seq<Command>): (r: seq<bv8>)
    ensures |r| == TotalSize(cmds)
  {
    if cmds == [] then [] else Encode(cmds[0]) + EncodeAll(cmds[1..])
  }

  /** Appending a record lengthens the sequence by exactly that record's size. */
  lemma {:induction false} TotalSizeSnoc(cmds: seq<Command>, c: Command)
    ensures TotalSize(cmds + [c]) == TotalSize(cmds) + Size(c)
  {
    if cmds != [] {
      assert (cmds + [c])[1..] == cmds[1..] + [c];
      TotalSizeSnoc(cmds[1..], c);
    }
  }

  /** Appending a record extends the image by that record's image, leaving the earlier bytes as they were. */
  lemma {:induction false} EncodeAllSnoc(cmds: seq<Command>, c: Command)
    ensures EncodeAll(cmds + [c]) == EncodeAll(cmds) + Encode(c)
  {
    if cmds == [] {
      assert EncodeAll([c]) == Encode(c) + EncodeAll([]);
    } else {
      assert (cmds + [c])[1..] == cmds[1..] + [c];
      EncodeAllSnoc(cmds[1..], c);
    }
  }

  /** No record of `cmds` is the end marker. */
  predicate NoEnd(cmds: seq<Command>)
  {
    forall i | 0 <= i < |cmds| :: !cmds[i].End?
  }

  /** A well-formed command sequence: non-empty, with its only end marker last. */
  predicate Terminated(cmds: seq<Command>)
  {
    cmds != [] && cmds[|cmds| - 1] == End && NoEnd(cmds[..|cmds| - 1])
  }

  /**
   * The consumer's walk over a buffer from `off`: read a tag, read the record
   * it introduces, move past it, and stop after the first end marker. Every
   * sequence it returns ends with its first and only end marker. A record cut
   * off by the end of the buffer is `Truncated`; reaching the end of the
   * buffer at a record boundary without an end marker is `Unterminated`,
   * never an implicit end.
   */
  function DecodeFrom(bytes: seq<bv8>, off: nat): (r: Result<seq<Command>, DecodeError>)
    ensures r.Ok? ==> Terminated(r.value)
    decreases |bytes| - off
  {
    if off >= |bytes| then Err(Unterminated)
    else
      match ReadCommand(bytes, off)
      case Err(e) => Err(e)
      case Ok(c) =>
        if c.End? then Ok([c])
        else
          match DecodeFrom(bytes, off + Size(c))
          case Err(e) => Err(e)
          case Ok(rest) => TerminatedCons(c, rest); Ok([c] + rest)
  }

  /** A record other than the end marker, put in front of a well-formed sequence, keeps it well-formed. */
  lemma TerminatedCons(c: Command, rest: seq<Command>)
    requires !c.End? && Terminated(rest)
    ensures Terminated([c] + rest)
  {
    assert ([c] + rest)[..|[c] + rest| - 1] == [c] + rest[..|rest| - 1];
  }

  /**
   * `cmds` can be read one record after the other from `off`: each record is
   * read where the one before it ends.
   */
  predicate ReadsAs(bytes: seq<bv8>, off: nat, cmds: seq<Command>)
    decreases |cmds|
  {
    cmds == [] || (ReadCommand(bytes, off) == Ok(cmds[0]) && ReadsAs(bytes, off + Size(cmds[0]), cmds[1..]))
  }

  /** A stored sequence is its first record's image followed by the rest's. */
  lemma StoredCons(bytes: seq<bv8>, off: nat, cmds: seq<Command>)
    requires cmds != []
    requires off + TotalSize(cmds) <= |bytes| && bytes[off..off + TotalSize(cmds)] == EncodeAll(cmds)
    ensures off + Size(cmds[0]) <= |bytes| && bytes[off..off + Size(cmds[0])] == Encode(cmds[0])
    ensures off + Size(cmds[0]) + TotalSize(cmds[1..]) <= |bytes|
    ensures bytes[off + Size(cmds[0])..off + Size(cmds[0]) + TotalSize(cmds[1..])] == EncodeAll(cmds[1..])
  {
    var image := EncodeAll(cmds);
    CutAt(bytes, off, image, Size(cmds[0]));
    assert image[..Size(cmds[0])] == Encode(cmds[0]);
    assert image[Size(cmds[0])..] == EncodeAll(cmds[1..]);
  }

  /** Behind the first record of a longer well-formed sequence is a well-formed sequence. */
  lemma TerminatedTail(cmds: seq<Command>)
    requires Terminated(cmds) && |cmds| > 1
    ensures !cmds[0].End? && Terminated(cmds[1..])
  {
    var body, tailBody := cmds[..|cmds| - 1], cmds[1..][..|cmds| - 2];
    forall i | 0 <= i < |tailBody| ensures !tailBody[i].End? {
      assert tailBody[i] == body[i + 1];
    }
    assert cmds[0] == cmds[..|cmds| - 1][0];
  }

  /** The first record of a stored sequence is read back, and the rest is stored right after it. */
  lemma StoredHead(bytes: seq<bv8>, off: nat, cmds: seq<Command>)
    requires cmds != []
    requires off + TotalSize(cmds) <= |bytes|
    requires bytes[off..off + TotalSize(cmds)] == EncodeAll(cmds)
    ensures ReadCommand(bytes, off) == Ok(cmds[0])
    ensures off + Size(cmds[0]) + TotalSize(cmds[1..]) <= |bytes|
    ensures bytes[off + Size(cmds[0])..off + Size(cmds[0]) + TotalSize(cmds[1..])] == EncodeAll(cmds[1..])
  {
    StoredCons(bytes, off, cmds);
    ReadEncoded(bytes, off, cmds[0]);
  }

  /** A stored sequence of records is read back record by record. */
  lemma {:induction false} StoredReadsAs(bytes: seq<bv8>, off: nat, cmds: seq<Command>)
    requires off + TotalSize(cmds) <= |bytes|
    requires bytes[off..off + TotalSize(cmds)] == EncodeAll(cmds)
    ensures ReadsAs(bytes, off, cmds)
    decreases |cmds|, 1
  {
    if cmds != [] {
      StoredHead(bytes, off, cmds);
      ReadsAsCons(bytes, off, cmds);
    }
  }

  /** The step of `StoredReadsAs`: the first record is read, the rest is stored after it. */
  lemma {:induction false} ReadsAsCons(bytes: seq<bv8>, off: nat, cmds: seq<Command>)
    requires cmds != [] && ReadCommand(bytes, off) == Ok(cmds[0])
    requires off + Size(cmds[0]) + TotalSize(cmds[1..]) <= |bytes|
    requires bytes[off + Size(cmds[0])..off + Size(cmds[0]) + TotalSize(cmds[1..])] == EncodeAll(cmds[1..])
    ensures ReadsAs(bytes, off, cmds)
    decreases |cmds|, 0
  {
    StoredReadsAs(bytes, off + Size(cmds[0]), cmds[1..]);
  }

  /** The walk over a well-formed sequence read record by record yields that sequence. */
  lemma {:induction false} ReadsAsDecodes(bytes: seq<bv8>, off: nat, cmds: seq<Command>)
    requires Terminated(cmds) && ReadsAs(bytes, off, cmds)
    ensures DecodeFrom(bytes, off) == Ok(cmds)
    decreases |cmds|
  {
    if |cmds| == 1 {
      assert cmds == [End];
    } else {
      TerminatedTail(cmds);
      ReadsAsDecodes(bytes, off + Size(cmds[0]), cmds[1..]);
      assert [cmds[0]] + cmds[1..] == cmds;
    }
  }

  /**
   * Sequence preservation: when a well-formed sequence `cmds` (its records,
   * then the end marker) is stored from `off`, the consumer's walk from `off`
   * yields exactly `cmds`, in order.
   */
  lemma DecodeEncoded(bytes: seq<bv8>, off: nat, cmds: seq<Command>)
    requires Terminated(cmds)
    requires off + TotalSize(cmds) <= |bytes|
    requires bytes[off..off + TotalSize(cmds)] == EncodeAll(cmds)
    ensures DecodeFrom(bytes, off) == Ok(cmds)
  {
    StoredReadsAs(bytes, off, cmds);
    ReadsAsDecodes(bytes, off, cmds);
  }

  /**
   * After a run of records with no end marker among them, the walk returns
   * whatever error it meets next: it neither stops early nor skips the error.
   */
  lemma {:induction false} DecodeErrorAfter(bytes: seq<bv8>, off: nat, cmds: seq<Command>)
    requires ReadsAs(bytes, off, cmds) && NoEnd(cmds)
    requires DecodeFrom(bytes, off + TotalSize(cmds)).Err?
    ensures DecodeFrom(bytes, off) == DecodeFrom(bytes, off + TotalSize(cmds))
    decreases |cmds|
  {
    if cmds != [] {
      assert !cmds[0].End?;
      assert NoEnd(cmds[1..]) by {
        forall i | 0 <= i < |cmds[1..]| ensures !cmds[1..][i].End? {
          assert cmds[1..][i] == cmds[i + 1];
        }
      }
      ReadCommandFits(bytes, off);
      DecodeErrorAfter(bytes, off + Size(cmds[0]), cmds[1..]);
    }
  }

  /**
   * A buffer whose records run up to its very end with no end marker among
   * them is `Unterminated`: the walk never treats the end of the buffer as
   * an implicit end marker.
   */
  lemma DecodeUnterminated(bytes: seq<bv8>, off: nat, cmds: seq<Command>)
    requires ReadsAs(bytes, off, cmds) && NoEnd(cmds)
    requires off + TotalSize(cmds) == |bytes|
    ensures DecodeFrom(bytes, off) == Err(Unterminated)
  {
    DecodeErrorAfter(bytes, off, cmds);
  }

  /**
   * A buffer whose records, none of them an end marker, are followed by a
   * record cut off by the end of the buffer is `Truncated`.
   */
  lemma DecodeTruncated(bytes: seq<bv8>, off: nat, cmds: seq<Command>)
    requires ReadsAs(bytes, off, cmds) && NoEnd(cmds)
    requires off + TotalSize(cmds) < |bytes|
    requires ReadCommand(bytes, off + TotalSize(cmds)) == Err(Truncated)
    ensures DecodeFrom(bytes, off) == Err(Truncated)
  {
    DecodeErrorAfter(bytes, off, cmds);
  }
}
