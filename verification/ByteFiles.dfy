/**
One stored file as a sequence of bytes (internal/datanode/datanode.go:110-139 and 230-318): writes at an offset, with
the gap before it filled by zeros, truncation and extension, whole-file stores and clipped reads.

The operations are related to a second, independent description of a file: a length, and for each position the byte
that the last operation touching it left there.
*/
module ByteFiles {
  newtype byte = x: int | 0 <= x < 256

  type Bytes = seq<byte>

  function Zeros(n: nat): (z: Bytes)
    ensures |z| == n && forall i :: 0 <= i < n ==> z[i] == 0
  {
    seq(n, _ => 0)
  }

  /** The byte at any position; past the end a file reads as zeros. */
  function ByteAt(b: Bytes, i: nat): byte {
    if i < |b| then b[i] else 0
  }

  function Max(a: int, b: int): int {
    if a < b then b else a
  }

  // ----- the operations -----

  /** `os.Truncate`: cut, or extend by zeros. */
  function Resize(b: Bytes, size: nat): Bytes {
    if size <= |b| then b[..size] else b + Zeros(size - |b|)
  }

  /** `File.WriteAt`: no data leaves the file alone, whatever the offset. */
  function Overlay(b: Bytes, offset: nat, data: Bytes): Bytes {
    if data == [] then b
    else
      var padded := if offset <= |b| then b else Resize(b, offset);
      padded[..offset] + data + if offset + |data| <= |b| then b[offset + |data|..] else []
  }

  /** `File.ReadAt` into a buffer of `length` bytes: the bytes read, and whether the end was met. */
  function Slice(b: Bytes, offset: nat, length: nat): (Bytes, bool) {
    if length == 0 then ([], false)
    else if offset >= |b| then ([], true)
    else if offset + length <= |b| then (b[offset..offset + length], false)
    else (b[offset..], true)
  }

  lemma OverlayAt(b: Bytes, offset: nat, data: Bytes, i: nat)
    ensures |Overlay(b, offset, data)| == if data == [] then |b| else Max(|b|, offset + |data|)
    ensures ByteAt(Overlay(b, offset, data), i)
         == if offset <= i < offset + |data| then data[i - offset] else ByteAt(b, i)
  {
  }

  lemma ResizeAt(b: Bytes, size: nat, i: nat)
    ensures |Resize(b, size)| == size && ByteAt(Resize(b, size), i) == if i < size then ByteAt(b, i) else 0
  {
  }

  /** A read returns the file's bytes from the offset on, as many as asked for or left, and for a positive length
      reports the end exactly when fewer than asked for are left. */
  lemma SliceIs(b: Bytes, offset: nat, length: nat)
    ensures var (d, eof) := Slice(b, offset, length);
      && |d| == (if offset >= |b| then 0 else if offset + length <= |b| then length else |b| - offset)
      && (forall i :: 0 <= i < |d| ==> d[i] == b[offset + i])
      && (length > 0 ==> (eof <==> offset + length > |b|)) && (length == 0 ==> !eof)
  {
  }

  // ----- refinement -----

  datatype FileOp = Write(offset: nat, data: Bytes) | Truncate(size: nat) | Store(content: Bytes)

  function Do(b: Bytes, op: FileOp): Bytes {
    match op
    case Write(offset, data) => Overlay(b, offset, data)
    case Truncate(size) => Resize(b, size)
    case Store(content) => content
  }

  function DoAll(ops: seq<FileOp>): Bytes {
    if ops == [] then [] else Do(DoAll(ops[..|ops|-1]), ops[|ops|-1])
  }

  /** The length after a history of operations on a file that starts empty. */
  function LengthOf(ops: seq<FileOp>): nat {
    if ops == [] then 0
    else
      match ops[|ops|-1]
      case Write(offset, data) =>
        if data == [] then LengthOf(ops[..|ops|-1]) else Max(LengthOf(ops[..|ops|-1]), offset + |data|)
      case Truncate(size) => size
      case Store(content) => |content|
  }

  /** The byte at `i` after a history, found by looking back for the last operation that decided it. */
  function LastByte(ops: seq<FileOp>, i: nat): byte {
    if ops == [] then 0 as byte
    else
      match ops[|ops|-1]
      case Write(offset, data) =>
        if offset <= i < offset + |data| then data[i - offset] else LastByte(ops[..|ops|-1], i)
      case Truncate(size) => if i < size then LastByte(ops[..|ops|-1], i) else 0
      case Store(content) => if i < |content| then content[i] else 0
  }

  /** Any history of operations yields a file with the length and the bytes that the history determines. */
  lemma {:induction false} HistoryDecides(ops: seq<FileOp>, i: nat)
    ensures |DoAll(ops)| == LengthOf(ops) && ByteAt(DoAll(ops), i) == LastByte(ops, i)
  {
    if ops != [] {
      var b := DoAll(ops[..|ops|-1]);
      HistoryDecides(ops[..|ops|-1], i);
      match ops[|ops|-1]
      case Write(offset, data) => OverlayAt(b, offset, data, i);
      case Truncate(size) => ResizeAt(b, size, i);
      case Store(content) =>
    }
  }

  /** What was written can be read back, and a read elsewhere is not disturbed. */
  lemma ReadBack(b: Bytes, offset: nat, data: Bytes)
    ensures Slice(Overlay(b, offset, data), offset, |data|) == (data, false)
  {
    if data != [] {
      assert Overlay(b, offset, data)[offset..offset + |data|] == data;
    }
  }
}
