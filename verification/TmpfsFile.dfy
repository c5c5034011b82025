/** The bytes of a file in memory: a growable buffer that refines a byte sequence. */
module TmpfsFile {
  import opened Options

  type Byte = bv8

  const INITIAL_CAP: nat := 4096
  const GROW_FACTOR: nat := 2
  const INT_RANGE: int := 0x1_0000_0000

  /** The conversion of a size to the 32-bit int that the operations return. */
  function ToInt(n: nat): (r: int)
    ensures n < INT_RANGE / 2 ==> r == n
    ensures -INT_RANGE / 2 <= r < INT_RANGE / 2
    ensures n % INT_RANGE == 0 ==> r == 0
    ensures r > 0 ==> r <= n
  {
    var low := n % INT_RANGE;
    if low < INT_RANGE / 2 then low else low - INT_RANGE
  }

  /** The conversion is off by a multiple of the range. */
  lemma ToIntRest(n: nat)
    ensures (n - ToInt(n)) % INT_RANGE == 0
  {
    var q := n / INT_RANGE;
    assert n - n % INT_RANGE == q * INT_RANGE;
    if n % INT_RANGE >= INT_RANGE / 2 {
      assert n - ToInt(n) == (q + 1) * INT_RANGE;
    }
  }

  // ---------------------------------------------------------------- byte sequences

  function Zeros(n: nat): (z: seq<Byte>)
    ensures |z| == n && forall i :: 0 <= i < n ==> z[i] == 0
  {
    seq(n, _ => 0)
  }

  /** The bytes cut or filled up with zeros to a size. */
  function Resize(s: seq<Byte>, n: nat): (r: seq<Byte>)
    ensures |r| == n
    ensures forall i :: 0 <= i < n ==> r[i] == if i < |s| then s[i] else 0
  {
    if n <= |s| then s[..n] else s + Zeros(n - |s|)
  }

  /** The bytes with `b` put at an offset; a gap before it is filled with zeros. */
  function WriteAt(s: seq<Byte>, offset: nat, b: seq<Byte>): (r: seq<Byte>)
    ensures |r| == if offset + |b| > |s| then offset + |b| else |s|
    ensures forall i :: 0 <= i < |r| ==>
              r[i] == if offset <= i < offset + |b| then b[i - offset] else if i < |s| then s[i] else 0
  {
    Resize(s, offset) + b + (if offset + |b| < |s| then s[offset + |b|..] else [])
  }

  /** At most `len` bytes from an offset on. */
  function ReadAt(s: seq<Byte>, offset: nat, len: nat): (r: seq<Byte>)
    ensures |r| == if offset >= |s| then 0 else if len < |s| - offset then len else |s| - offset
    ensures forall i :: 0 <= i < |r| ==> r[i] == s[offset + i]
  {
    if offset >= |s| then [] else if len < |s| - offset then s[offset..offset + len] else s[offset..]
  }

  /** What was written is read back, from any file. */
  lemma WriteThenRead(s: seq<Byte>, offset: nat, b: seq<Byte>)
    ensures ReadAt(WriteAt(s, offset, b), offset, |b|) == b
  {
    var r := WriteAt(s, offset, b);
    if b != [] {
      assert ReadAt(r, offset, |b|) == r[offset..offset + |b|];
    }
  }

  /** A file that was cut reads as zeros where it grows again, whatever stood there before. */
  lemma CutThenGrow(s: seq<Byte>, n: nat, m: nat)
    requires n <= |s|
    ensures Resize(Resize(s, n), m) == if m <= n then s[..m] else s[..n] + Zeros(m - n)
  {
  }

  /** Writing in two pieces is writing at once. */
  lemma WriteInPieces(s: seq<Byte>, offset: nat, a: seq<Byte>, b: seq<Byte>)
    ensures WriteAt(WriteAt(s, offset, a), offset + |a|, b) == WriteAt(s, offset, a + b)
  {
  }

  // ---------------------------------------------------------------- the buffer

  /** A capacity doubled until the size fits. */
  function Doubled(capacity: nat, size: nat): (r: nat)
    requires capacity > 0
    ensures size <= r
    decreases size - capacity
  {
    if capacity >= size then capacity else Doubled(capacity * GROW_FACTOR, size)
  }

  /** The capacity that tmpfs_write asks for. */
  function CapacityFor(capacity: nat, size: nat): nat {
    Doubled(if capacity == 0 then INITIAL_CAP else capacity, size)
  }

  class File {
    /** The buffer; its length is the capacity. Bytes from `size` on are left over or undefined. */
    var data: array<Byte>
    var size: nat
    /** The size the vnode shows. */
    var vSize: nat

    ghost predicate Valid()
      reads this
    {
      size <= data.Length && vSize == size
    }

    ghost function Contents(): seq<Byte>
      requires Valid()
      reads this, data
    {
      data[..size]
    }

    constructor ()
      ensures Valid() && Contents() == [] && fresh(data) && data.Length == 0
    {
      data := new Byte[0];
      size, vSize := 0, 0;
    }

    /** tmpfs_read: as many bytes as asked for and as there are from the offset on. */
    method Read(len: nat, offset: nat) returns (n: int, bytes: seq<Byte>)
      requires Valid()
      ensures bytes == ReadAt(Contents(), offset, len) && n == ToInt(|bytes|)
      ensures |bytes| <= len && (|bytes| < len ==> |bytes| == if offset < size then size - offset else 0)
      ensures forall i :: 0 <= i < |bytes| ==> offset + i < size && bytes[i] == Contents()[offset + i]
    {
      if offset >= size {
        return 0, [];
      }
      var available := size - offset;
      var count := if len < available then len else available;
      bytes := data[offset..offset + count];
      n := ToInt(count);
    }

    /** Move the bytes to a buffer of another capacity. */
    method Reallocate(capacity: nat)
      requires Valid() && size <= capacity
      modifies this`data
      ensures Valid() && Contents() == old(Contents()) && fresh(data) && data.Length == capacity
    {
      var bigger := new Byte[capacity];
      forall i | 0 <= i < size {
        bigger[i] := data[i];
      }
      data := bigger;
    }

    /** The capacity that tmpfs_write asks for: doubled until the new size fits. */
    method GrownCapacity(newSize: nat) returns (capacity: nat)
      ensures capacity == CapacityFor(data.Length, newSize) >= newSize
    {
      capacity := if data.Length == 0 then INITIAL_CAP else data.Length;
      while capacity < newSize
        invariant capacity > 0
        invariant Doubled(capacity, newSize) == CapacityFor(data.Length, newSize)
        decreases newSize - capacity
      {
        capacity := capacity * GROW_FACTOR;
      }
    }

    /** Fill a gap with zeros and copy the bytes, in a buffer that is large enough. */
    method Put(buf: seq<Byte>, offset: nat)
      requires Valid() && offset + |buf| <= data.Length
      modifies this`size, this`vSize, data
      ensures Valid() && Contents() == WriteAt(old(Contents()), offset, buf)
    {
      ghost var before := Contents();
      if offset > size {
        forall i | size <= i < offset {
          data[i] := 0;
        }
      }
      forall i | 0 <= i < |buf| {
        data[offset + i] := buf[i];
      }
      if offset + |buf| > size {
        size := offset + |buf|;
        vSize := size;
      }
      assert Contents() == WriteAt(before, offset, buf);
    }

    /** tmpfs_write: the bytes at the offset, zeros in a gap before it, nothing else changed. */
    method Write(buf: seq<Byte>, offset: nat, room: bool) returns (n: Option<int>)
      requires Valid()
      modifies this, data
      ensures Valid() && (data == old(data) || fresh(data))
      ensures n.None? <==> !room && offset + |buf| > old(data.Length)
      ensures n.None? ==> Contents() == old(Contents()) && data == old(data)
      ensures data.Length == if n.Some? && offset + |buf| > old(data.Length)
                             then CapacityFor(old(data.Length), offset + |buf|) else old(data.Length)
      ensures n.Some? ==> n.value == ToInt(|buf|) && Contents() == WriteAt(old(Contents()), offset, buf)
    {
      var newSize := offset + |buf|;
      if newSize > data.Length {
        var capacity := GrownCapacity(newSize);
        if !room {
          return None;
        }
        Reallocate(capacity);
      }
      Put(buf, offset);
      n := Some(ToInt(|buf|));
    }

    /** tmpfs_truncate: cut, or filled up with zeros. */
    method Truncate(newSize: nat, room: bool) returns (ok: bool)
      requires Valid()
      modifies this, data
      ensures Valid() && (data == old(data) || fresh(data))
      ensures ok <==> room || newSize <= old(data.Length)
      ensures !ok ==> Contents() == old(Contents()) && data == old(data)
      ensures ok ==> data.Length == if newSize == 0 || newSize > old(data.Length) then newSize else old(data.Length)
      ensures ok ==> Contents() == Resize(old(Contents()), newSize)
    {
      ghost var before := Contents();
      if newSize == 0 {
        data := new Byte[0];
        size := 0;
      } else if newSize < size {
        size := newSize;
      } else if newSize > size {
        if newSize > data.Length {
          if !room {
            return false;
          }
          Reallocate(newSize);
        }
        assert forall i :: 0 <= i < size ==> data[i] == before[i];
        forall i | size <= i < newSize {
          data[i] := 0;
        }
        size := newSize;
      }
      vSize := size;
      ok := true;
    }
  }

  // ---------------------------------------------------------------- runs

  /** A call, with or without memory to be had for a larger buffer. */
  datatype Op =
    | ReadOp(offset: nat, len: nat)
    | WriteOp(offset: nat, buf: seq<Byte>, room: bool)
    | TruncateOp(size: nat, room: bool)

  /** The bytes of a file and the capacity of its buffer. */
  datatype Plain = Plain(bytes: seq<Byte>, capacity: nat)

  /** The size a call needs a buffer for. */
  function Needed(op: Op): nat {
    match op
    case ReadOp(_, _) => 0
    case WriteOp(offset, buf, _) => offset + |buf|
    case TruncateOp(size, _) => size
  }

  /** The call needs a larger buffer and there is no memory for it. */
  predicate Refused(p: Plain, op: Op) {
    !op.ReadOp? && !op.room && Needed(op) > p.capacity
  }

  function After(p: Plain, op: Op): Plain {
    if Refused(p, op) then p
    else
      match op
      case ReadOp(_, _) => p
      case WriteOp(offset, buf, _) =>
        Plain(WriteAt(p.bytes, offset, buf),
              if Needed(op) > p.capacity then CapacityFor(p.capacity, Needed(op)) else p.capacity)
      case TruncateOp(size, _) =>
        Plain(Resize(p.bytes, size), if size == 0 || size > p.capacity then size else p.capacity)
  }

  /** The bytes read, or nothing if the call was refused. */
  function Output(p: Plain, op: Op): Option<seq<Byte>> {
    if Refused(p, op) then None else if op.ReadOp? then Some(ReadAt(p.bytes, op.offset, op.len)) else Some([])
  }

  function AfterAll(p: Plain, ops: seq<Op>): Plain {
    if ops == [] then p else After(AfterAll(p, ops[..|ops| - 1]), ops[|ops| - 1])
  }

  function Outputs(p: Plain, ops: seq<Op>): seq<Option<seq<Byte>>> {
    if ops == [] then []
    else Outputs(p, ops[..|ops| - 1]) + [Output(AfterAll(p, ops[..|ops| - 1]), ops[|ops| - 1])]
  }

  /** Any mix of reads, writes and truncations behaves as on a plain byte sequence. A call fails exactly if it needs
      a larger buffer and there is no memory, and then nothing changes. */
  method Run(f: File, ops: seq<Op>) returns (outputs: seq<Option<seq<Byte>>>)
    requires f.Valid()
    modifies f, f.data
    ensures f.Valid() && Plain(f.Contents(), f.data.Length) == AfterAll(old(Plain(f.Contents(), f.data.Length)), ops)
    ensures outputs == Outputs(old(Plain(f.Contents(), f.data.Length)), ops)
  {
    hide ReadAt;
    hide WriteAt;
    hide Resize;
    outputs := [];
    ghost var start := Plain(f.Contents(), f.data.Length);
    for i := 0 to |ops|
      invariant f.Valid() && (f.data == old(f.data) || fresh(f.data))
      invariant Plain(f.Contents(), f.data.Length) == AfterAll(start, ops[..i]) && outputs == Outputs(start, ops[..i])
    {
      assert ops[..i + 1][..i] == ops[..i];
      var output: Option<seq<Byte>> := Some([]);
      match ops[i] {
        case ReadOp(offset, len) =>
          var n, bytes := f.Read(len, offset);
          output := Some(bytes);
        case WriteOp(offset, buf, room) =>
          var n := f.Write(buf, offset, room);
          output := if n.Some? then Some([]) else None;
        case TruncateOp(size, room) =>
          var ok := f.Truncate(size, room);
          output := if ok then Some([]) else None;
      }
      outputs := outputs + [output];
    }
    assert ops[..|ops|] == ops;
  }

  // ---------------------------------------------------------------- open files

  /** An open file: a position in a file, and what it was opened for. */
  class Handle {
    const file: File
    const readable: bool
    const writable: bool
    const append: bool
    var offset: nat

    constructor (file: File, readable: bool, writable: bool, append: bool)
      ensures this.file == file && this.readable == readable && this.writable == writable && this.append == append
              && offset == 0
    {
      this.file, this.readable, this.writable, this.append := file, readable, writable, append;
      offset := 0;
    }

    /** vfs_read: the bytes at the position, which moves behind them. */
    method Read(len: nat) returns (n: Option<int>, bytes: seq<Byte>)
      requires file.Valid()
      modifies this
      ensures n.Some? <==> readable
      ensures n.Some? ==> bytes == ReadAt(file.Contents(), old(offset), len) && n.value == ToInt(|bytes|)
      ensures n.Some? ==> |bytes| <= len && forall i :: 0 <= i < |bytes| ==>
                old(offset) + i < file.size && bytes[i] == file.Contents()[old(offset) + i]
      ensures offset == old(offset) + (if n.Some? && n.value > 0 then n.value else 0)
    {
      if !readable {
        return None, [];
      }
      var count;
      count, bytes := file.Read(len, offset);
      if count > 0 {
        offset := offset + count;
      }
      n := Some(count);
    }

    /** vfs_write: the bytes go to the position, or to the end of a file opened for appending. */
    method Write(buf: seq<Byte>, room: bool) returns (n: Option<int>)
      requires file.Valid()
      modifies this, file, file.data
      ensures file.Valid() && (file.data == old(file.data) || fresh(file.data))
      ensures !writable ==> n.None?
      ensures writable ==>
                var at := if append then |old(file.Contents())| else old(offset);
                n.None? <==> !room && at + |buf| > old(file.data.Length)
      ensures n.None? ==> file.Contents() == old(file.Contents()) && offset == old(offset)
      ensures n.Some? ==>
                var at := if append then |old(file.Contents())| else old(offset);
                && file.Contents() == WriteAt(old(file.Contents()), at, buf) && n.value == ToInt(|buf|)
                && offset == if n.value > 0 then at + n.value else old(offset)
    {
      if !writable {
        return None;
      }
      var at := if append then file.vSize else offset;
      n := file.Write(buf, at, room);
      if n.Some? && n.value > 0 {
        offset := at + n.value;
      }
    }
  }

  function Concat(pieces: seq<seq<Byte>>): seq<Byte> {
    if pieces == [] then [] else Concat(pieces[..|pieces| - 1]) + pieces[|pieces| - 1]
  }

  /** Reading piece by piece, with buffers of any positive sizes that fit an int, gives the bytes from the position on
      without gap or overlap, and all of them by the time an answer is empty. */
  method ReadPieces(h: Handle, lens: seq<nat>) returns (pieces: seq<seq<Byte>>)
    requires h.file.Valid() && h.readable && forall i :: 0 <= i < |lens| ==> 0 < lens[i] < INT_RANGE / 2
    modifies h
    ensures |pieces| == |lens| && h.offset == old(h.offset) + |Concat(pieces)|
    ensures old(h.offset) <= h.file.size ==>
              h.offset <= h.file.size && Concat(pieces) == h.file.Contents()[old(h.offset)..h.offset]
    ensures forall i :: 0 <= i < |pieces| && pieces[i] == [] ==> h.offset >= h.file.size
    ensures forall i :: 0 <= i < |pieces| ==> |pieces[i]| <= lens[i]
  {
    pieces := [];
    ghost var start, bytes := h.offset, h.file.Contents();
    for i := 0 to |lens|
      invariant |pieces| == i && h.offset == start + |Concat(pieces)| && h.file.Valid() && h.file.Contents() == bytes
      invariant start <= |bytes| ==> h.offset <= |bytes| && Concat(pieces) == bytes[start..h.offset]
      invariant forall j :: 0 <= j < i && pieces[j] == [] ==> h.offset >= |bytes|
      invariant forall j :: 0 <= j < i ==> |pieces[j]| <= lens[j]
    {
      ghost var before := h.offset;
      var n, piece := h.Read(lens[i]);
      assert |piece| < INT_RANGE / 2 && n == Some(|piece|);
      assert start <= |bytes| ==> bytes[start..before] + bytes[before..h.offset] == bytes[start..h.offset];
      assert (pieces + [piece])[..i] == pieces;
      pieces := pieces + [piece];
    }
  }

  /** Reading with one buffer until an empty answer gives the whole file. */
  method ReadToEnd(h: Handle, len: nat) returns (bytes: seq<Byte>)
    requires h.file.Valid() && h.readable && 0 < len < INT_RANGE / 2 && h.offset == 0
    modifies h
    ensures bytes == h.file.Contents()
  {
    bytes := [];
    ghost var all := h.file.Contents();
    while true
      invariant h.file.Valid() && h.file.Contents() == all
      invariant h.offset == |bytes| <= |all| && bytes == all[..h.offset]
      decreases |all| - h.offset
    {
      var n, piece := h.Read(len);
      if n.value <= 0 {
        break;
      }
      bytes := bytes + piece;
    }
    assert all[..|all|] == all;
  }

  /** Appending puts the bytes behind the old ones. */
  lemma AppendIsConcat(s: seq<Byte>, b: seq<Byte>)
    ensures WriteAt(s, |s|, b) == s + b
  {
  }

  // ---------------------------------------------------------------- installing and loading a program

  /** The write loop of runit_install, on a file that vfs_create has truncated: it succeeds exactly on images
      whose size fits an int, and then the file holds the image. */
  method Install(h: Handle, image: seq<Byte>, room: bool) returns (ok: bool)
    requires h.file.Valid() && h.file.Contents() == [] && h.offset == 0 && h.writable && !h.append
    modifies h, h.file, h.file.data
    ensures h.file.Valid()
    ensures ok ==> h.file.Contents() == image
    ensures room ==> (ok <==> |image| < INT_RANGE / 2)
  {
    var written := 0;
    while written < |image|
      invariant 0 <= written <= |image| && h.offset == written && h.file.Valid()
                && (h.file.data == old(h.file.data) || fresh(h.file.data))
      invariant written == |image| ==> h.file.Contents() == image
      invariant |image| < INT_RANGE / 2 ==> written == 0 || written == |image|
      invariant written == 0 ==> h.file.Contents() == []
      invariant |image| >= INT_RANGE / 2 ==> written < |image| && (written == 0 || (|image| - written) % INT_RANGE == 0)
    {
      var n := h.Write(image[written..], room);
      if n.None? || n.value <= 0 {
        return false;
      }
      ToIntRest(|image| - written);
      written := written + n.value;
    }
    ok := true;
  }

  /** The read loop of elf_load_from_path: the whole file, if its size is not 0 and fits an int. */
  method Load(h: Handle) returns (image: Option<seq<Byte>>)
    requires h.file.Valid() && h.offset == 0 && h.readable
    modifies h
    ensures image == if 0 < h.file.vSize < INT_RANGE / 2 then Some(h.file.Contents()) else None
  {
    var size := h.file.vSize;
    if size == 0 {
      return None;
    }
    var buf: seq<Byte> := [];
    var total := 0;
    while total < size
      invariant 0 <= total <= size && total == |buf| == h.offset && buf == h.file.Contents()[..total]
      invariant size < INT_RANGE / 2 ==> total == 0 || total == size
      invariant size >= INT_RANGE / 2 ==> total < size && (total == 0 || (size - total) % INT_RANGE == 0)
    {
      var n, bytes := h.Read(size - total);
      assert bytes == h.file.Contents()[total..];
      if n.value <= 0 {
        break;
      }
      ToIntRest(|bytes|);
      buf := buf + bytes[..n.value];
      total := total + n.value;
    }
    if total != size {
      return None;
    }
    assert h.file.Contents()[..size] == h.file.Contents();
    image := Some(buf);
  }

  /** What runit_install puts into a file is what elf_load_from_path reads from it. */
  method InstallThenLoad(image: seq<Byte>) returns (loaded: Option<seq<Byte>>)
    ensures loaded == if 0 < |image| < INT_RANGE / 2 then Some(image) else None
  {
    var f := new File();
    var w := new Handle(f, false, true, false);
    var ok := Install(w, image, true);
    if !ok {
      return None;
    }
    var r := new Handle(f, true, false, false);
    loaded := Load(r);
  }
}
