/**
 * `Tile`: the command buffer of one screen tile. A fixed 64-byte array is
 * filled front to back; `length` is the write cursor. Each append stores one
 * record's image at the cursor and moves the cursor past it.
 */
module TileBuffer {
  import opened Wrappers
  import opened Bytes
  import opened Commands

  class Tile {
    /** The write cursor: how many bytes of `commands` are in use. */
    var length: nat
    /** `commands[tileBufSize]`. */
    const commands: array<bv8>
    /** The records appended so far, in order. */
    ghost var Log: seq<Command>

    /** The bytes in use are exactly the appended records' images, back to back. */
    ghost predicate Valid()
      reads this, commands
    {
      commands.Length == TileBufSize
      && length == TotalSize(Log) <= TileBufSize
      && commands[..length] == EncodeAll(Log)
    }

    /**
     * A tile with nothing appended. (The C struct is left uninitialised; the
     * empty starting state is stated here explicitly.)
     */
    constructor ()
      ensures Valid() && fresh(commands)
      ensures length == 0 && Log == []
    {
      length := 0;
      commands := new bv8[TileBufSize];
      Log := [];
    }

    /** The record the consumer reads at byte offset `off`. */
    function RecordAt(off: nat): Result<Command, DecodeError>
      reads this, commands
    {
      ReadCommand(commands[..], off)
    }

    /** The consumer's walk over the whole buffer, from offset 0. */
    function Decoded(): Result<seq<Command>, DecodeError>
      reads this, commands
    {
      DecodeFrom(commands[..], 0)
    }

    /**
     * The bytes after storing `c`'s image at `at` over the bytes `before`:
     * the image sits at `[at, at + Size(c))` and every other byte is as it was.
     */
    ghost predicate Wrote(before: seq<bv8>, at: nat, c: Command)
      reads this, commands
    {
      |before| == commands.Length
      && at + Size(c) <= commands.Length
      && commands[..at] == before[..at]
      && commands[at..at + Size(c)] == Encode(c)
      && commands[at + Size(c)..] == before[at + Size(c)..]
    }

    /**
     * `append<T>`: the record's image is stored at the cursor and the cursor
     * advances by the record's size. The source does not check the capacity,
     * so staying inside the 64 bytes is the caller's obligation.
     */
    method Append(c: Command)
      requires Valid()
      requires length + Size(c) <= TileBufSize
      modifies this, commands
      ensures Valid()
      ensures Log == old(Log) + [c] && length == old(length) + Size(c)
      ensures Wrote(old(commands[..]), old(length), c)
    {
      ghost var before, at := commands[..], length;
      var image := Encode(c);
      Store(length, image);
      length := length + |image|;
      Log := Log + [c];
      StoredSnoc(before, commands[..], at, old(Log), c);
    }

    /** Copies `image` into the buffer from `at`; every other byte keeps its value. */
    method Store(at: nat, image: seq<bv8>)
      requires at + |image| <= commands.Length
      modifies commands
      ensures commands[..at] == old(commands[..at])
      ensures commands[at..at + |image|] == image
      ensures commands[at + |image|..] == old(commands[at + |image|..])
    {
      forall i | 0 <= i < |image| {
        commands[at + i] := image[i];
      }
    }

    /**
     * The checked append a caller needs in place of `append` when it cannot
     * rule out overflow: a record that would not fit is refused and the tile
     * is left exactly as it was.
     */
    method TryAppend(c: Command) returns (ok: bool)
      requires Valid()
      modifies this, commands
      ensures ok <==> old(length) + Size(c) <= TileBufSize
      ensures Valid()
      ensures ok ==> Log == old(Log) + [c] && length == old(length) + Size(c)
      ensures ok ==> Wrote(old(commands[..]), old(length), c)
      ensures !ok ==> length == old(length) && Log == old(Log) && commands[..] == old(commands[..])
    {
      ok := length + Size(c) <= TileBufSize;
      if ok {
        Append(c);
      }
    }

    /** The tag stored at `at` after appending `c` there is `c`'s own. */
    lemma TagAt(before: seq<bv8>, at: nat, c: Command)
      requires Wrote(before, at, c)
      ensures at + WordSize <= commands.Length && WordAt(commands[..], at) == OpCode(OpOf(c))
    {
      assert commands[..][at..at + Size(c)] == Encode(c);
      TagIn(commands[..], at, c);
    }

    /**
     * Round trip: the record the consumer reads where `c` was appended is
     * `c`, every field unchanged.
     */
    lemma ReadBack(before: seq<bv8>, at: nat, c: Command)
      requires Wrote(before, at, c)
      ensures RecordAt(at) == Ok(c)
    {
      assert commands[..][at..at + Size(c)] == commands[at..at + Size(c)];
      ReadEncoded(commands[..], at, c);
    }

    /** `segment`: appends a `vgerCmdSegment` tagged `vgerOpSegment`. */
    method Segment(a: Point2, b: Point2, width: Word)
      requires Valid()
      requires length + OpSize(OpSegment) <= TileBufSize
      modifies this, commands
      ensures Valid()
      ensures Log == old(Log) + [Command.Segment(a, b, width)] && length == old(length) + OpSize(OpSegment)
      ensures Wrote(old(commands[..]), old(length), Command.Segment(a, b, width))
      ensures WordAt(commands[..], old(length)) == OpCode(OpSegment)
    {
      Append(Command.Segment(a, b, width));
      TagAt(old(commands[..]), old(length), Command.Segment(a, b, width));
    }

    /** `lineFill`: appends a `vgerCmdLineFill` tagged `vgerOpLine`. */
    method LineFill(a: Point2, b: Point2)
      requires Valid()
      requires length + OpSize(OpLine) <= TileBufSize
      modifies this, commands
      ensures Valid()
      ensures Log == old(Log) + [Command.LineFill(a, b)] && length == old(length) + OpSize(OpLine)
      ensures Wrote(old(commands[..]), old(length), Command.LineFill(a, b))
      ensures WordAt(commands[..], old(length)) == OpCode(OpLine)
    {
      Append(Command.LineFill(a, b));
      TagAt(old(commands[..]), old(length), Command.LineFill(a, b));
    }

    /** `bezFill`: appends a `vgerCmdBezFill` tagged `vgerOpBez`. */
    method BezFill(a: Point2, b: Point2, c: Point2)
      requires Valid()
      requires length + OpSize(OpBez) <= TileBufSize
      modifies this, commands
      ensures Valid()
      ensures Log == old(Log) + [Command.BezFill(a, b, c)] && length == old(length) + OpSize(OpBez)
      ensures Wrote(old(commands[..]), old(length), Command.BezFill(a, b, c))
      ensures WordAt(commands[..], old(length)) == OpCode(OpBez)
    {
      Append(Command.BezFill(a, b, c));
      TagAt(old(commands[..]), old(length), Command.BezFill(a, b, c));
    }

    /**
     * `solid`: appends a `vgerCmdSolid` tagged `vgerOpSolid`, its `int color`
     * stored as its two's-complement pattern; the stored colour reads back as `color`.
     */
    method Solid(color: int32)
      requires Valid()
      requires length + OpSize(OpSolid) <= TileBufSize
      modifies this, commands
      ensures Valid()
      ensures Log == old(Log) + [Command.Solid(Int32Word(color))] && length == old(length) + OpSize(OpSolid)
      ensures Wrote(old(commands[..]), old(length), Command.Solid(Int32Word(color)))
      ensures WordAt(commands[..], old(length)) == OpCode(OpSolid)
      ensures Int32Value(Log[|Log| - 1].color) == color
    {
      Append(Command.Solid(Int32Word(color)));
      TagAt(old(commands[..]), old(length), Command.Solid(Int32Word(color)));
      Int32RoundTrip(color);
    }

    /** `end`: appends the bare 4-byte `vgerOpEnd` tag, with no payload. */
    method End()
      requires Valid()
      requires length + OpSize(OpEnd) <= TileBufSize
      modifies this, commands
      ensures Valid()
      ensures Log == old(Log) + [Command.End] && length == old(length) + OpSize(OpEnd)
      ensures Wrote(old(commands[..]), old(length), Command.End)
      ensures length == old(length) + WordSize
      ensures commands[old(length)..length] == EncodeWord(OpCode(OpEnd))
    {
      Append(Command.End);
    }
  }

  /** Storing a record's image right after a stored sequence stores the longer sequence. */
  lemma StoredSnoc(before: seq<bv8>, after: seq<bv8>, at: nat, records: seq<Command>, c: Command)
    requires at == TotalSize(records) && at + Size(c) <= |after| && at <= |before|
    requires before[..at] == EncodeAll(records)
    requires after[..at] == before[..at] && after[at..at + Size(c)] == Encode(c)
    ensures at + Size(c) == TotalSize(records + [c])
    ensures after[..at + Size(c)] == EncodeAll(records + [c])
  {
    JoinAt(after, EncodeAll(records), Encode(c));
    EncodeAllSnoc(records, c);
    TotalSizeSnoc(records, c);
  }

  /**
   * A tile whose records end with its first end marker decodes to exactly
   * the records appended, in append order.
   */
  lemma DecodeTile(t: Tile)
    requires t.Valid()
    requires Terminated(t.Log)
    ensures t.Decoded() == Ok(t.Log)
  {
    assert t.commands[..][0..t.length] == t.commands[..t.length];
    DecodeEncoded(t.commands[..], 0, t.Log);
  }

  /**
   * A tile filled to its 64 bytes with no end marker among its records is
   * malformed: the consumer's walk reports `Unterminated`.
   */
  lemma FullTileUnterminated(t: Tile)
    requires t.Valid() && NoEnd(t.Log)
    requires t.length == TileBufSize
    ensures t.Decoded() == Err(Unterminated)
  {
    assert t.commands[..][0..t.length] == t.commands[..];
    StoredReadsAs(t.commands[..], 0, t.Log);
    DecodeUnterminated(t.commands[..], 0, t.Log);
  }

  /**
   * From an empty tile, `segment` followed by `bezFill` fills the 64 bytes
   * exactly, and an `end()` after them does not fit (the checked append
   * refuses it), so the full tile has no end marker and is `Unterminated`.
   */
  method SegmentThenBezFill(a: Point2, b: Point2, c: Point2, width: Word)
    returns (used: nat, endAccepted: bool, decoded: Result<seq<Command>, DecodeError>)
    ensures used == TileBufSize
    ensures !endAccepted
    ensures decoded == Err(Unterminated)
  {
    var t := new Tile();
    t.Segment(a, b, width);
    assert t.length == 32;
    t.BezFill(a, b, c);
    assert t.length == 64;
    used := t.length;
    endAccepted := t.TryAppend(Command.End);
    assert t.Log == [Command.Segment(a, b, width), Command.BezFill(a, b, c)];
    FullTileUnterminated(t);
    decoded := t.Decoded();
  }

  /**
   * The store of `append` as written, with no capacity check, over a model of
   * memory in which the tile's array is `memory[..TileBufSize]` and whatever
   * follows it in memory comes after.
   */
  function UncheckedAppend(memory: seq<bv8>, length: nat, c: Command): (r: (seq<bv8>, nat))
    requires length + Size(c) <= |memory|
    ensures |r.0| == |memory| && r.1 == length + Size(c)
    ensures r.0[length..r.1] == Encode(c)
    ensures r.0[..length] == memory[..length] && r.0[r.1..] == memory[r.1..]
  {
    (memory[..length] + Encode(c) + memory[length + Size(c)..], length + Size(c))
  }

  /**
   * With the cursor at 64 (the state `segment` then `bezFill` leaves), the
   * unchecked `end()` overwrites the 4 bytes after the array and moves the
   * cursor past the capacity.
   */
  lemma EndOverrunsFullTile(memory: seq<bv8>)
    requires |memory| == TileBufSize + WordSize
    requires memory[TileBufSize] != 0
    ensures var (after, cursor) := UncheckedAppend(memory, TileBufSize, End);
            cursor > TileBufSize && after[TileBufSize] != memory[TileBufSize]
  {
    var (after, cursor) := UncheckedAppend(memory, TileBufSize, End);
    assert after[TileBufSize] == Encode(End)[0] == 0;
  }

  /** From an empty tile, `solid` and two `lineFill`s use 56 bytes. */
  method SolidAndTwoLines(color: int32, p: Point2, q: Point2, r: Point2) returns (t: Tile)
    ensures fresh(t) && fresh(t.commands) && t.Valid()
    ensures t.length == 56
    ensures t.Log == [Command.Solid(Int32Word(color)), Command.LineFill(p, q), Command.LineFill(q, r)]
  {
    t := new Tile();
    t.Solid(color);
    assert t.length == 8 && t.Log == [Command.Solid(Int32Word(color))];
    t.LineFill(p, q);
    assert t.length == 32;
    t.LineFill(q, r);
  }

  /**
   * After `solid` and two `lineFill`s (56 bytes), a third `lineFill` (24
   * bytes) does not fit and the checked append refuses it, leaving the tile
   * as it was. The 4-byte `end()` still fits, and the tile then decodes to
   * exactly the records accepted, in order.
   */
  method SolidThenLines(color: int32, p: Point2, q: Point2, r: Point2, s: Point2)
    returns (used: nat, lineAccepted: bool, endAccepted: bool, decoded: Result<seq<Command>, DecodeError>)
    ensures used == 56
    ensures !lineAccepted && endAccepted
    ensures decoded == Ok([Command.Solid(Int32Word(color)), Command.LineFill(p, q), Command.LineFill(q, r), Command.End])
  {
    var t := SolidAndTwoLines(color, p, q, r);
    used := t.length;
    ghost var records := t.Log;
    lineAccepted := t.TryAppend(Command.LineFill(r, s));
    endAccepted := t.TryAppend(Command.End);
    assert t.Log == records + [Command.End];
    assert Terminated(t.Log) by {
      assert t.Log[..|t.Log| - 1] == records;
    }
    assert t.Log == [Command.Solid(Int32Word(color)), Command.LineFill(p, q), Command.LineFill(q, r), Command.End];
    DecodeTile(t);
    decoded := t.Decoded();
  }
}
