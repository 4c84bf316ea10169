/** struct atbm_buff of hal/atbm_skbuf.c: one byte array with a data window that is moved by
    push, pull, put and trim, and byte copies inside it. */
module PacketBuffer {
  import opened FrameFormat

  // ---------------------------------------------------------------- memory as a sequence

  /** The memory with some bytes stored at a position. */
  function Write(m: seq<Byte>, at: nat, bytes: seq<Byte>): (r: seq<Byte>)
    requires at + |bytes| <= |m|
    ensures |r| == |m|
    decreases |bytes|
  {
    if bytes == [] then m
    else Write(m, at, bytes[..|bytes| - 1])[at + |bytes| - 1 := bytes[|bytes| - 1]]
  }

  lemma SliceOfSlice(m: seq<Byte>, a: nat, b: nat, c: nat, d: nat)
    requires a <= b <= |m| && c <= d <= b - a
    ensures m[a..b][c..d] == m[a + c..a + d]
  {
    var s, t := m[a..b][c..d], m[a + c..a + d];
    assert forall i :: 0 <= i < d - c ==> s[i] == t[i];
  }

  /** A store, byte by byte. */
  lemma {:induction false} WriteAt(m: seq<Byte>, at: nat, bytes: seq<Byte>)
    requires at + |bytes| <= |m|
    ensures forall i :: 0 <= i < |m| ==>
      Write(m, at, bytes)[i] == if at <= i < at + |bytes| then bytes[i - at] else m[i]
    decreases |bytes|
  {
    if bytes != [] { WriteAt(m, at, bytes[..|bytes| - 1]); }
  }

  lemma Cut(m: seq<Byte>, a: nat, b: nat, c: nat)
    requires a <= b <= c <= |m|
    ensures m[a..c] == m[a..b] + m[b..c]
  {}

  /** What a store leaves alone, and what it leaves behind. */
  lemma WriteSlices(m: seq<Byte>, at: nat, bytes: seq<Byte>, lo: nat, hi: nat)
    requires at + |bytes| <= |m| && lo <= hi <= |m|
    ensures Write(m, at, bytes)[at..at + |bytes|] == bytes
    ensures hi <= at || at + |bytes| <= lo ==> Write(m, at, bytes)[lo..hi] == m[lo..hi]
  {
    var r := Write(m, at, bytes);
    WriteAt(m, at, bytes);
    if hi <= at || at + |bytes| <= lo {
      assert forall i :: lo <= i < hi ==> r[i] == m[i];
    }
  }

  /** The memory after copying the bytes from src up to end, one by one and upwards, to dst;
      the two regions may overlap. */
  function CopyUp(m: seq<Byte>, dst: nat, src: nat, end: nat): (r: seq<Byte>)
    requires src <= end <= |m| && dst + (end - src) <= |m|
    ensures |r| == |m|
    decreases end - src
  {
    if end == src then m
    else var p := CopyUp(m, dst, src, end - 1); p[dst + (end - 1 - src) := p[end - 1]]
  }

  /** An upward copy to a lower address, or between disjoint regions, is a plain store. */
  lemma {:induction false} CopyUpClean(m: seq<Byte>, dst: nat, src: nat, end: nat)
    requires src <= end <= |m| && dst + (end - src) <= |m| && (dst <= src || end <= dst)
    ensures CopyUp(m, dst, src, end) == Write(m, dst, m[src..end])
    decreases end - src
  {
    if src < end {
      CopyUpClean(m, dst, src, end - 1);
      WriteAt(m, dst, m[src..end - 1]);
      assert m[src..end][..end - src - 1] == m[src..end - 1];
    }
  }

  /** An upward copy of six bytes to four places up, within its own source: four bytes repeat. */
  lemma CopyUpSmears(m: seq<Byte>, at: nat)
    requires at + 10 <= |m|
    ensures CopyUp(m, at + 4, at, at + 6) == Write(m, at + 4, m[at..at + 4] + m[at..at + 2])
  {
    CopyUpClean(m, at + 4, at, at + 4);
    var m4 := CopyUp(m, at + 4, at, at + 4);
    var m5 := CopyUp(m, at + 4, at, at + 5);
    assert m5 == m4[at + 8 := m4[at + 4]];
    assert CopyUp(m, at + 4, at, at + 6) == m5[at + 9 := m5[at + 5]];
    WriteAt(m, at + 4, m[at..at + 4]);
    WriteAt(m, at + 4, m[at..at + 4] + m[at..at + 2]);
  }

  class Skb {
    const mem: array<Byte>
    var data: nat
    var tail: nat

    ghost predicate Valid()
      reads this
    {
      data <= tail <= mem.Length
    }

    /** The bytes of the frame. */
    ghost function Contents(): seq<Byte>
      requires Valid()
      reads this, mem
    {
      mem[data..tail]
    }

    function Len(): nat
      requires Valid()
      reads this
    {
      tail - data
    }

    /** atbm_dev_alloc_skb: an empty frame in zeroed memory, with room on both sides. */
    constructor (size: nat)
      ensures Valid() && data == tail == HEADROOM == 64 && mem.Length == HEADROOM + size + TAILROOM && TAILROOM == 64
      ensures fresh(mem)
      ensures forall i :: 0 <= i < mem.Length ==> mem[i] == 0
    {
      mem := new Byte[HEADROOM + size + TAILROOM](_ => 0);
      data, tail := HEADROOM, HEADROOM;
    }

    /** atbm_skb_reserve: more headroom for a frame that is still empty. */
    method Reserve(n: nat)
      requires Valid() && data == tail && tail + n <= mem.Length
      modifies this
      ensures Valid() && data == tail == old(tail) + n
    {
      data := data + n;
      tail := data;
    }

    /** atbm_skb_put: n more bytes at the tail; their old contents become part of the frame. Nothing
        checks that the buffer has them. */
    method Put(n: nat) returns (at: nat)
      requires Valid()
      modifies this
      ensures data == old(data) && at == old(tail) && tail == old(tail) + n
      ensures Valid() <==> n <= mem.Length - at
      ensures Valid() ==> Contents() == old(Contents()) + mem[at..tail]
    {
      at := tail;
      tail := tail + n;
      assert Valid() ==> mem[data..tail] == mem[data..at] + mem[at..tail];
    }

    /** atbm_skb_push: n more bytes at the head. */
    method Push(n: nat)
      requires Valid() && n <= data
      modifies this
      ensures Valid() && data == old(data) - n && tail == old(tail)
      ensures Contents() == mem[data..data + n] + old(Contents())
    {
      data := data - n;
      assert mem[data..tail] == mem[data..data + n] + mem[data + n..tail];
    }

    /** atbm_skb_pull: n bytes fewer at the head. Nothing checks that the frame has them. */
    method Pull(n: nat)
      requires Valid()
      modifies this
      ensures data == old(data) + n && tail == old(tail)
      ensures Valid() <==> n <= old(Len())
      ensures Valid() ==> Contents() == old(Contents())[n..]
    {
      data := data + n;
    }

    /** atbm_skb_trim: the frame cut to n bytes, or taken to go on behind its end. */
    method Trim(n: nat)
      requires Valid()
      modifies this
      ensures data == old(data) && tail == data + n
      ensures Valid() <==> n <= mem.Length - data
      ensures n <= old(Len()) ==> Contents() == old(Contents())[..n]
    {
      tail := data + n;
    }

    /** atbm_memcpy inside the buffer, byte by byte upwards. */
    method Copy(dst: nat, src: nat, n: nat)
      requires dst + n <= mem.Length && src + n <= mem.Length
      modifies mem
      ensures mem[..] == CopyUp(old(mem[..]), dst, src, src + n)
    {
      ghost var m := mem[..];
      for i := 0 to n
        invariant mem[..] == CopyUp(m, dst, src, src + i)
      {
        mem[dst + i] := mem[src + i];
      }
    }

    /** The copy where no byte is overwritten before it is read. */
    method CopyClear(dst: nat, src: nat, n: nat, ghost bytes: seq<Byte>)
      requires dst + n <= mem.Length && src + n <= mem.Length && (dst <= src || src + n <= dst)
      requires bytes == mem[..][src..src + n]
      modifies mem
      ensures mem[..] == Write(old(mem[..]), dst, bytes)
    {
      CopyUpClean(mem[..], dst, src, src + n);
      Copy(dst, src, n);
    }

    /** The copy of six bytes to four places up: the first four arrive, and come again. */
    method CopyFourUp(src: nat, ghost bytes: seq<Byte>)
      requires src + 10 <= mem.Length && bytes == mem[..][src..src + 4] + mem[..][src..src + 2]
      modifies mem
      ensures mem[..] == Write(old(mem[..]), src + 4, bytes)
    {
      CopyUpSmears(mem[..], src);
      Copy(src + 4, src, 6);
    }

    /** Stores bytes that come from elsewhere. */
    method Store(at: nat, bytes: seq<Byte>)
      requires at + |bytes| <= mem.Length
      modifies mem
      ensures mem[..] == Write(old(mem[..]), at, bytes)
    {
      for i := 0 to |bytes|
        invariant mem[..] == Write(old(mem[..]), at, bytes[..i])
      {
        assert bytes[..i + 1][..i] == bytes[..i];
        mem[at + i] := bytes[i];
      }
      assert bytes[..|bytes|] == bytes;
    }
  }
}
