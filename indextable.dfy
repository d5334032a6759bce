/**
 * A file's index table: INDEX_MAX entries, each a data block number or -1,
 * occupying exactly one disk block. write_block stores the C array of
 * 32-bit ints as its raw bytes, so a table is kept on the modelled disk as
 * 4 little-endian two's-complement bytes per entry (1024 x 4 = 4096 bytes),
 * and read_block turns those bytes back into the entries.
 */
module IndexTable {
  import opened Layout

  /** Values a C `int` can hold. */
  predicate IsInt32(v: int)
  {
    -0x8000_0000 <= v < 0x8000_0000
  }

  /** A table of the right length whose entries fit the on-disk 32-bit fields. */
  predicate Storable(t: seq<int>)
  {
    |t| == INDEX_MAX && forall i :: 0 <= i < |t| ==> IsInt32(t[i])
  }

  /** The unsigned value of the bit pattern of a 32-bit int (two's complement). */
  function Unsigned(v: int): (u: int)
    requires IsInt32(v)
    ensures 0 <= u < 0x1_0000_0000
  {
    if v < 0 then v + 0x1_0000_0000 else v
  }

  /** The 32-bit int whose bit pattern has unsigned value u. */
  function Signed(u: int): (v: int)
    requires 0 <= u < 0x1_0000_0000
    ensures IsInt32(v) && Unsigned(v) == u
  {
    if u >= 0x8000_0000 then u - 0x1_0000_0000 else u
  }

  /** Byte k (0 = least significant) of an unsigned 32-bit value. */
  function ByteOf(u: int, k: int): byte
    requires 0 <= u < 0x1_0000_0000 && 0 <= k < 4
  {
    if k == 0 then (u % 256) as byte
    else if k == 1 then (u / 256 % 256) as byte
    else if k == 2 then (u / 0x1_0000 % 256) as byte
    else (u / 0x100_0000) as byte
  }

  /** The unsigned value whose little-endian bytes are b0 .. b3. */
  function Assemble(b0: byte, b1: byte, b2: byte, b3: byte): (u: int)
    ensures 0 <= u < 0x1_0000_0000
  {
    b0 as int + 0x100 * b1 as int + 0x1_0000 * b2 as int + 0x100_0000 * b3 as int
  }

  lemma AssembleBytes(u: int)
    requires 0 <= u < 0x1_0000_0000
    ensures Assemble(ByteOf(u, 0), ByteOf(u, 1), ByteOf(u, 2), ByteOf(u, 3)) == u
  {
    var a := u / 256;
    var c := a / 256;
    assert u == 256 * a + u % 256;
    assert a == 256 * c + a % 256;
    assert c == u / 0x1_0000;
    assert c == 256 * (c / 256) + c % 256;
    assert c / 256 == u / 0x100_0000;
  }

  /** The four little-endian bytes of one entry. */
  function EntryBytes(v: int): (b: seq<byte>)
    requires IsInt32(v)
    ensures |b| == 4
  {
    var u := Unsigned(v);
    [ByteOf(u, 0), ByteOf(u, 1), ByteOf(u, 2), ByteOf(u, 3)]
  }

  /** The bytes of a run of entries, each in turn. */
  function EncodeEntries(t: seq<int>): (b: seq<byte>)
    requires forall i :: 0 <= i < |t| ==> IsInt32(t[i])
    ensures |b| == 4 * |t|
  {
    if |t| == 0 then [] else EncodeEntries(t[..|t| - 1]) + EntryBytes(t[|t| - 1])
  }

  /** The entry whose little-endian bytes are w. */
  function EntryValue(w: seq<byte>): (v: int)
    requires |w| == 4
    ensures IsInt32(v)
  {
    Signed(Assemble(w[0], w[1], w[2], w[3]))
  }

  /** An entry's bytes read back as the entry. */
  lemma EntryRoundTrip(v: int)
    requires IsInt32(v)
    ensures EntryValue(EntryBytes(v)) == v
  {
    AssembleBytes(Unsigned(v));
  }

  /** The entries of a run of bytes, four at a time. */
  function DecodeEntries(b: seq<byte>): (t: seq<int>)
    requires |b| % 4 == 0
    ensures 4 * |t| == |b| && forall i :: 0 <= i < |t| ==> IsInt32(t[i])
  {
    if |b| == 0 then []
    else
      var n := |b|;
      DecodeEntries(b[..n - 4]) + [EntryValue(b[n - 4..])]
  }

  /** The block that write_block stores for an in-memory table. */
  function Encode(t: seq<int>): (b: Block)
    requires Storable(t)
    ensures |b| == BLOCKSIZE
  {
    EncodeEntries(t)
  }

  /** The table that read_block loads from a block. */
  function Decode(b: Block): (t: seq<int>)
    requires |b| == BLOCKSIZE
    ensures Storable(t)
  {
    DecodeEntries(b)
  }

  /** Decoding the bytes of a run of entries gives the entries back. */
  lemma {:induction false} DecodeEncodeEntries(t: seq<int>)
    requires forall i :: 0 <= i < |t| ==> IsInt32(t[i])
    ensures DecodeEntries(EncodeEntries(t)) == t
  {
    if |t| > 0 {
      var pre, x := t[..|t| - 1], t[|t| - 1];
      var b := EncodeEntries(t);
      assert b == EncodeEntries(pre) + EntryBytes(x);
      assert b[..|b| - 4] == EncodeEntries(pre);
      assert b[|b| - 4..] == EntryBytes(x);
      DecodeEncodeEntries(pre);
      EntryRoundTrip(x);
      assert t == pre + [x];
    }
  }

  /** Reading back a table that was written gives the same table. */
  lemma DecodeEncode(t: seq<int>)
    requires Storable(t)
    ensures Decode(Encode(t)) == t
  {
    DecodeEncodeEntries(t);
  }

  /** The table create writes for a new file: every entry unused. */
  function EmptyTable(): (t: seq<int>)
    ensures Storable(t)
    ensures forall i :: 0 <= i < |t| ==> t[i] == -1
  {
    seq(INDEX_MAX, _ => -1)
  }

  /** First-fit scan over an index table (simplefs.c lines 544-552): the lowest
      entry that is -1, or -1 when every entry is in use. */
  method FindUnusedEntry(t: seq<int>) returns (e: int)
    requires |t| == INDEX_MAX
    ensures -1 <= e < INDEX_MAX
    ensures e == -1 <==> forall i :: 0 <= i < INDEX_MAX ==> t[i] != -1
    ensures e != -1 ==> t[e] == -1 && forall i :: 0 <= i < e ==> t[i] != -1
  {
    var i := 0;
    while i < INDEX_MAX
      invariant 0 <= i <= INDEX_MAX
      invariant forall j :: 0 <= j < i ==> t[j] != -1
    {
      if t[i] == -1 {
        return i;
      }
      i := i + 1;
    }
    return -1;
  }
}
