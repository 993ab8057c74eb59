/** Byte buffers: copying, and little-endian fields inside a structure. */
module Bytes {
  import opened Config

  /** `dst` with the bytes from `at` on replaced by `src`. */
  function Splice(dst: seq<byte>, at: nat, src: seq<byte>): (r: seq<byte>)
    requires at + |src| <= |dst|
    ensures |r| == |dst|
    ensures r[at..at + |src|] == src
    ensures r[..at] == dst[..at] && r[at + |src|..] == dst[at + |src|..]
  {
    dst[..at] + src + dst[at + |src|..]
  }

  /** A range that misses the spliced bytes reads as before. */
  lemma {:induction false} SpliceMisses(dst: seq<byte>, at: nat, src: seq<byte>, lo: nat, hi: nat)
    requires at + |src| <= |dst| && lo <= hi <= |dst|
    requires hi <= at || at + |src| <= lo
    ensures Splice(dst, at, src)[lo..hi] == dst[lo..hi]
  {
    var r := Splice(dst, at, src);
    if hi <= at {
      assert r[lo..hi] == r[..at][lo..hi];
    } else {
      var e := at + |src|;
      assert r[lo..hi] == r[e..][lo - e..hi - e];
      assert dst[lo..hi] == dst[e..][lo - e..hi - e];
    }
  }

  lemma {:induction false} SpliceBytes(dst: seq<byte>, at: nat, src: seq<byte>)
    requires at + |src| <= |dst|
    ensures forall i :: 0 <= i < |dst| ==>
              Splice(dst, at, src)[i] == if at <= i < at + |src| then src[i - at] else dst[i]
  {}

  function U16(b: seq<byte>, at: nat): (v: int)
    requires at + 2 <= |b|
    ensures 0 <= v < 0x1_0000
  {
    var lo: int, hi: int := b[at], b[at + 1];
    lo + 0x100 * hi
  }

  function U32(b: seq<byte>, at: nat): u32
    requires at + 4 <= |b|
  {
    U16(b, at) + 0x1_0000 * U16(b, at + 2)
  }

  function Bytes16(v: int): (r: seq<byte>)
    requires 0 <= v < 0x1_0000
    ensures |r| == 2
  {
    [v % 0x100, v / 0x100]
  }

  function Bytes32(v: u32): (r: seq<byte>)
    ensures |r| == 4
  {
    Bytes16(v % 0x1_0000) + Bytes16(v / 0x1_0000)
  }

  function PutU16(b: seq<byte>, at: nat, v: int): seq<byte>
    requires at + 2 <= |b| && 0 <= v < 0x1_0000
  {
    Splice(b, at, Bytes16(v))
  }

  function PutU32(b: seq<byte>, at: nat, v: u32): seq<byte>
    requires at + 4 <= |b|
  {
    Splice(b, at, Bytes32(v))
  }

  /** A stored field reads back. */
  lemma {:induction false} FieldReads(b: seq<byte>, at: nat, v: u32)
    requires at + 4 <= |b|
    ensures U32(PutU32(b, at, v), at) == v
  {
    FieldOfSlice(PutU32(b, at, v), at, at + 4, at);
  }

  lemma {:induction false} ShortReads(b: seq<byte>, at: nat, v: int)
    requires at + 2 <= |b| && 0 <= v < 0x1_0000
    ensures U16(PutU16(b, at, v), at) == v
  {
    ShortOfSlice(PutU16(b, at, v), at, at + 2, at);
  }

  /** Fields read through a slice are the fields of the whole. */
  lemma {:induction false} FieldOfSlice(b: seq<byte>, lo: nat, hi: nat, at: nat)
    requires lo <= at && at + 4 <= hi <= |b|
    ensures U32(b[lo..hi], at - lo) == U32(b, at)
  {}

  lemma {:induction false} ShortOfSlice(b: seq<byte>, lo: nat, hi: nat, at: nat)
    requires lo <= at && at + 2 <= hi <= |b|
    ensures U16(b[lo..hi], at - lo) == U16(b, at)
  {}

  /** Fields apart from the spliced bytes read as before. */
  lemma {:induction false} FieldsMissed(b: seq<byte>, at: nat, src: seq<byte>, other: nat)
    requires at + |src| <= |b| && other + 4 <= |b| && (other + 4 <= at || at + |src| <= other)
    ensures U32(Splice(b, at, src), other) == U32(b, other) && U16(Splice(b, at, src), other) == U16(b, other)
  {
    var r := Splice(b, at, src);
    SpliceMisses(b, at, src, other, other + 4);
    FieldOfSlice(r, other, other + 4, other);
    FieldOfSlice(b, other, other + 4, other);
    ShortOfSlice(r, other, other + 4, other);
    ShortOfSlice(b, other, other + 4, other);
  }

  /** Copies `n` bytes of `s2` from index `from` over those of `s1` from index `at`. */
  method Memcpy(s1: seq<byte>, at: nat, s2: seq<byte>, from: nat, n: nat) returns (r: seq<byte>)
    requires at + n <= |s1| && from + n <= |s2|
    ensures r == Splice(s1, at, s2[from..from + n])
  {
    r := s1;
    var p1, p2, left := at, from, n;
    while left != 0
      invariant 0 <= left <= n && p1 == at + n - left && p2 == from + n - left
      invariant |r| == |s1|
      invariant r[at..p1] == s2[from..p2]
      invariant forall i :: 0 <= i < |s1| && (i < at || p1 <= i) ==> r[i] == s1[i]
      decreases left
    {
      r := r[p1 := s2[p2]];
      assert s2[from..p2 + 1] == s2[from..p2] + [s2[p2]];
      assert r[at..p1 + 1] == r[at..p1] + [s2[p2]];
      left, p1, p2 := left - 1, p1 + 1, p2 + 1;
    }
    assert r == r[..at] + r[at..at + n] + r[at + n..];
  }
}
