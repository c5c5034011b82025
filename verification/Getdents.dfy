/** Reading a directory with getdents64: packed records that parse back, and enumeration over many calls. */
module Getdents {
  import opened Options

  newtype byte = x: int | 0 <= x < 256

  const NAME_OFFSET: nat := 19
  const NAME_MAX: nat := 255

  /** A directory entry as readdir gives it. */
  datatype Dirent = Dirent(ino: nat, kind: byte, name: seq<byte>)

  predicate ValidName(name: seq<byte>) {
    |name| <= NAME_MAX && forall i :: 0 <= i < |name| ==> name[i] != 0
  }

  predicate ValidEntry(d: Dirent) {
    d.ino < Pow256(8) && ValidName(d.name)
  }

  ghost predicate ValidEntries(ds: seq<Dirent>) {
    |ds| < Pow256(8) && forall i :: 0 <= i < |ds| ==> ValidEntry(ds[i])
  }

  // ---------------------------------------------------------------- little-endian numbers

  function Pow256(k: nat): nat {
    if k == 0 then 1 else 256 * Pow256(k - 1)
  }

  function Encode(n: nat, k: nat): (b: seq<byte>)
    ensures |b| == k
  {
    if k == 0 then [] else [(n % 256) as byte] + Encode(n / 256, k - 1)
  }

  function Decode(b: seq<byte>): nat {
    if b == [] then 0 else b[0] as nat + 256 * Decode(b[1..])
  }

  lemma {:induction false} DecodeEncode(n: nat, k: nat)
    requires n < Pow256(k)
    ensures Decode(Encode(n, k)) == n
  {
    if k > 0 {
      DecodeEncode(n / 256, k - 1);
      assert Encode(n, k)[1..] == Encode(n / 256, k - 1);
    }
  }

  // ---------------------------------------------------------------- records

  function Align8(n: nat): (r: nat)
    ensures r % 8 == 0 && n <= r < n + 8
  {
    (n + 7) / 8 * 8
  }

  /** The least multiple of eight with room for the fixed fields, the name and its terminating zero. */
  function RecordLength(d: Dirent): (r: nat)
    ensures r % 8 == 0 && 19 + |d.name| + 1 <= r < 19 + |d.name| + 1 + 8
  {
    Align8(NAME_OFFSET + |d.name| + 1)
  }

  function Padding(n: nat): (p: seq<byte>)
    ensures |p| == n && forall i :: 0 <= i < n ==> p[i] == 0
  {
    seq(n, _ => 0)
  }

  /** The record of an entry: inode, position of the next one, length, type, name, zeros to a multiple of 8. */
  function Record(d: Dirent, next: nat): (r: seq<byte>)
    ensures |r| == RecordLength(d) && |r| % 8 == 0
  {
    Encode(d.ino, 8) + Encode(next, 8) + Encode(RecordLength(d), 2) + [d.kind]
    + d.name + [0] + Padding(RecordLength(d) - (NAME_OFFSET + |d.name| + 1))
  }

  function Pack(ds: seq<Dirent>, at: nat): seq<byte> {
    if ds == [] then [] else Record(ds[0], at + 1) + Pack(ds[1..], at + 1)
  }

  lemma {:induction false} PackOneMore(ds: seq<Dirent>, d: Dirent, at: nat)
    ensures Pack(ds + [d], at) == Pack(ds, at) + Record(d, at + |ds| + 1)
  {
    if ds == [] {
      assert (ds + [d])[1..] == [];
    } else {
      PackOneMore(ds[1..], d, at + 1);
      assert (ds + [d])[1..] == ds[1..] + [d];
      assert Record(ds[0], at + 1) + (Pack(ds[1..], at + 1) + Record(d, at + |ds| + 1))
          == Record(ds[0], at + 1) + Pack(ds[1..], at + 1) + Record(d, at + |ds| + 1);
    }
  }

  // ---------------------------------------------------------------- parsing

  /** The bytes before the first zero. */
  function CString(b: seq<byte>): seq<byte> {
    if b == [] || b[0] == 0 then [] else [b[0]] + CString(b[1..])
  }

  lemma {:induction false} CStringOf(name: seq<byte>, rest: seq<byte>)
    requires forall i :: 0 <= i < |name| ==> name[i] != 0
    requires rest != [] && rest[0] == 0
    ensures CString(name + rest) == name
  {
    if name == [] {
      assert name + rest == rest;
    } else {
      CStringOf(name[1..], rest);
      assert (name + rest)[1..] == name[1..] + rest;
    }
  }

  /** A parsed record: the entry, and the position of the next one. */
  datatype Parsed = Parsed(entry: Dirent, next: nat)

  /** What a reader of the buffer makes of it, record by record. */
  function Parse(b: seq<byte>): seq<Parsed> {
    if |b| < NAME_OFFSET then []
    else
      var reclen := Decode(b[16..18]);
      if reclen < NAME_OFFSET || reclen > |b| then []
      else [ParseOne(b[..reclen])] + Parse(b[reclen..])
  }

  function ParseOne(b: seq<byte>): Parsed
    requires |b| >= NAME_OFFSET
  {
    Parsed(Dirent(Decode(b[..8]), b[18], CString(b[NAME_OFFSET..])), Decode(b[8..16]))
  }

  lemma RecordFields(d: Dirent, next: nat)
    requires ValidEntry(d) && next < Pow256(8)
    ensures var r := Record(d, next);
            && r[..8] == Encode(d.ino, 8) && r[8..16] == Encode(next, 8) && r[16..18] == Encode(RecordLength(d), 2)
            && r[18] == d.kind && CString(r[NAME_OFFSET..]) == d.name
  {
    var tail := [0 as byte] + Padding(RecordLength(d) - (NAME_OFFSET + |d.name| + 1));
    CStringOf(d.name, tail);
    assert Record(d, next)[NAME_OFFSET..] == d.name + tail;
  }

  lemma ParseRecord(d: Dirent, next: nat)
    requires ValidEntry(d) && next < Pow256(8)
    ensures ParseOne(Record(d, next)) == Parsed(d, next)
    ensures Decode(Record(d, next)[16..18]) == RecordLength(d)
  {
    hide Encode;
    hide Decode;
    hide Record;
    RecordFields(d, next);
    DecodeEncode(d.ino, 8);
    DecodeEncode(next, 8);
    ShortEnough(d);
    DecodeEncode(RecordLength(d), 2);
  }

  lemma ShortEnough(d: Dirent)
    requires ValidEntry(d)
    ensures NAME_OFFSET < RecordLength(d) <= 280 < Pow256(2)
  {
    assert Pow256(2) == 256 * Pow256(1) && Pow256(1) == 256 * Pow256(0);
  }

  /** Parsing a packed buffer gives the entries back, with their positions. */
  lemma {:induction false} ParsePack(ds: seq<Dirent>, at: nat)
    requires at + |ds| < Pow256(8) && forall i :: 0 <= i < |ds| ==> ValidEntry(ds[i])
    ensures |Parse(Pack(ds, at))| == |ds|
    ensures forall i :: 0 <= i < |ds| ==> Parse(Pack(ds, at))[i] == Parsed(ds[i], at + i + 1)
  {
    hide Record;
    hide Decode;
    hide ParseOne;
    if ds != [] {
      var r, rest := Record(ds[0], at + 1), Pack(ds[1..], at + 1);
      ParseRecord(ds[0], at + 1);
      ShortEnough(ds[0]);
      ParsePack(ds[1..], at + 1);
      var b := r + rest;
      assert b[16..18] == r[16..18] && b[..|r|] == r && b[|r|..] == rest;
      assert Parse(b) == [Parsed(ds[0], at + 1)] + Parse(rest);
    }
  }

  // ---------------------------------------------------------------- the calls

  /** tmpfs_readdir: the entry at the position, which moves on; nothing at the end. */
  method ReadDir(ds: seq<Dirent>, offset: nat) returns (d: Option<Dirent>, next: nat)
    ensures d == if offset < |ds| then Some(ds[offset]) else None
    ensures next == if offset < |ds| then offset + 1 else offset
  {
    var i := 0;
    while i < |ds| && i < offset
      invariant 0 <= i <= |ds| && i <= offset
    {
      i := i + 1;
    }
    if i == |ds| {
      return None, offset;
    }
    d, next := Some(ds[i]), offset + 1;
  }

  datatype Result = Bytes(data: seq<byte>) | Invalid

  /** The entries from `from` to `to`, packed. */
  function PackRange(ds: seq<Dirent>, from: nat, to: nat): seq<byte>
    requires from <= to <= |ds|
  {
    Pack(ds[from..to], from)
  }

  lemma PackRangeOneMore(ds: seq<Dirent>, from: nat, to: nat)
    requires from <= to < |ds|
    ensures PackRange(ds, from, to + 1) == PackRange(ds, from, to) + Record(ds[to], to + 1)
  {
    hide Pack;
    hide Record;
    assert ds[from..to + 1] == ds[from..to] + [ds[to]];
    PackOneMore(ds[from..to], ds[to], from);
  }

  /** sys_getdents64: as many whole records as fit, from the position on. If not even one fits the call fails,
      and the entry is passed over all the same. */
  method GetDents(ds: seq<Dirent>, offset: nat, count: nat) returns (r: Result, next: nat)
    requires ValidEntries(ds)
    ensures r.Invalid? <==> count == 0 || (offset < |ds| && RecordLength(ds[offset]) > count)
    ensures r.Invalid? ==> next == if count == 0 then offset else offset + 1
    ensures r.Bytes? && offset > |ds| ==> r.data == [] && next == offset
    ensures r.Bytes? && offset <= |ds| ==>
              && offset <= next <= |ds| && r.data == PackRange(ds, offset, next) && |r.data| <= count
              && (next < |ds| ==> next > offset && |r.data| + RecordLength(ds[next]) > count)
  {
    if count == 0 {
      return Invalid, offset;
    }
    var buf: seq<byte> := [];
    next := offset;
    while true
      invariant offset > |ds| ==> next == offset && buf == []
      invariant offset <= |ds| ==> offset <= next <= |ds| && buf == PackRange(ds, offset, next) && |buf| <= count
      invariant next > offset ==> RecordLength(ds[offset]) <= |buf|
      decreases |ds| - next
    {
      var d, after := ReadDir(ds, next);
      if d.None? {
        break;
      }
      var reclen := Align8(NAME_OFFSET + |d.value.name| + 1);
      if |buf| + reclen > count {
        if |buf| == 0 {
          return Invalid, after;
        }
        NonEmpty(ds, offset, next);
        if after > 0 {
          after := after - 1;
        }
        next := after;
        return Bytes(buf), next;
      }
      PackRangeOneMore(ds, offset, next);
      NonEmpty(ds, offset, next);
      buf := buf + Record(d.value, after);
      next := after;
    }
    r := Bytes(buf);
  }

  lemma NonEmpty(ds: seq<Dirent>, from: nat, to: nat)
    requires from <= to <= |ds|
    ensures from == to ==> PackRange(ds, from, to) == []
  {
    assert from == to ==> ds[from..to] == [];
  }

  // ---------------------------------------------------------------- enumeration

  /** The entries that a sequence of buffers shows. */
  function Shown(chunks: seq<seq<byte>>): seq<Parsed> {
    if chunks == [] then [] else Shown(chunks[..|chunks| - 1]) + Parse(chunks[|chunks| - 1])
  }

  ghost predicate Enumerated(ds: seq<Dirent>, shown: seq<Parsed>, to: nat) {
    |shown| == to <= |ds| && forall i :: 0 <= i < to ==> shown[i] == Parsed(ds[i], i + 1)
  }

  lemma ParseRange(ds: seq<Dirent>, from: nat, to: nat)
    requires ValidEntries(ds) && from <= to <= |ds|
    ensures |Parse(PackRange(ds, from, to))| == to - from
    ensures forall i :: 0 <= i < to - from ==> Parse(PackRange(ds, from, to))[i] == Parsed(ds[from + i], from + i + 1)
  {
    ParsePack(ds[from..to], from);
  }

  /** A buffer that holds the largest record. */
  ghost predicate BigEnough(ds: seq<Dirent>, count: nat) {
    count > 0 && forall j :: 0 <= j < |ds| ==> count >= RecordLength(ds[j])
  }

  lemma EnumeratedMore(ds: seq<Dirent>, chunks: seq<seq<byte>>, from: nat, to: nat)
    requires ValidEntries(ds) && from <= to <= |ds| && Enumerated(ds, Shown(chunks), from)
    ensures Enumerated(ds, Shown(chunks + [PackRange(ds, from, to)]), to)
  {
    hide Parse;
    hide PackRange;
    ParseRange(ds, from, to);
    var more := chunks + [PackRange(ds, from, to)];
    assert more[..|more| - 1] == chunks;
  }

  /** Calls with buffers that hold the largest record: what they show is the directory from its beginning, each
      entry once and in order, and all of it after as many calls as there are entries. */
  method Enumerate(ds: seq<Dirent>, counts: seq<nat>) returns (chunks: seq<seq<byte>>, offset: nat)
    requires ValidEntries(ds) && forall i :: 0 <= i < |counts| ==> BigEnough(ds, counts[i])
    ensures |chunks| == |counts| && Enumerated(ds, Shown(chunks), offset)
    ensures |counts| >= |ds| ==> offset == |ds|
    ensures |counts| > |ds| ==> chunks[|chunks| - 1] == []
  {
    hide Parse;
    hide PackRange;
    hide Shown;
    hide ValidEntries;
    hide RecordLength;
    chunks, offset := [], 0;
    NothingShown(ds);
    for i := 0 to |counts|
      invariant |chunks| == i && Enumerated(ds, Shown(chunks), offset)
      invariant offset == |ds| || offset >= i
      invariant i > |ds| ==> chunks[i - 1] == []
    {
      ghost var from := offset;
      assert BigEnough(ds, counts[i]);
      var r;
      r, offset := GetDents(ds, offset, counts[i]);
      EnumeratedMore(ds, chunks, from, offset);
      NonEmpty(ds, from, offset);
      chunks := chunks + [r.data];
    }
  }

  lemma NothingShown(ds: seq<Dirent>)
    ensures Enumerated(ds, Shown([]), 0)
  {
  }
}
