// The shared segment's layout and the working-set toucher: `memset` over a
// byte buffer, the calibration loop, and the per-handoff touch of the
// working set inside the shared segment.
module WorkingSet {
  import opened Config

  /** Offset of the synchronisation flag (an `int`) in the shared segment. */
  const FlagOffset: nat := 0

  /** Bytes the flag occupies. */
  const FlagBytes: nat := 4

  /** Offset of the working set: one page of header after the flag's start. */
  const WorkingSetOffset: nat := PageSize

  /** Bytes of a working set of `ws` pages. */
  function WorkingSetBytes(ws: nat): (n: nat)
    ensures n % PageSize == 0 && n / PageSize == ws
  {
    ws * PageSize
  }

  /**
   * Size requested from `shmget`: one header page plus the working set,
   * which therefore ends exactly where the segment ends.
   */
  function SegmentSize(ws: nat): (n: nat)
    ensures n == WorkingSetOffset + WorkingSetBytes(ws)
    ensures FlagOffset + FlagBytes <= WorkingSetOffset <= n
    ensures n % PageSize == 0 && n / PageSize == ws + 1
  {
    (ws + 1) * PageSize
  }

  /** All bytes of `s` in [from, to) equal `b`. */
  ghost predicate AllBytes(s: seq<byte>, from: nat, to: nat, b: byte)
    requires from <= to <= |s|
  {
    forall k :: from <= k < to ==> s[k] == b
  }

  /**
   * memset(a + from, v, n): every byte of [from, from + n) becomes
   * `(unsigned char) v` and every other byte keeps its value.
   */
  method Memset(a: array<byte>, from: nat, v: int, n: nat)
    requires from + n <= a.Length
    modifies a
    ensures AllBytes(a[..], from, from + n, ByteOf(v))
    ensures forall k :: 0 <= k < a.Length && !(from <= k < from + n) ==> a[k] == old(a[k])
  {
    forall k | from <= k < from + n {
      a[k] := ByteOf(v);
    }
  }

  /**
   * The calibration loop: `iterations` passes of memset over the whole
   * private buffer with the pass index as fill value. After at least one
   * pass every byte holds the last index, modulo 256.
   */
  method Calibrate(buf: array<byte>, iterations: nat)
    modifies buf
    ensures iterations >= 1 ==> AllBytes(buf[..], 0, buf.Length, ByteOf(iterations - 1))
    ensures iterations == 0 ==> buf[..] == old(buf[..])
  {
    var i := 0;
    while i < iterations
      invariant 0 <= i <= iterations
      invariant i == 0 ==> buf[..] == old(buf[..])
      invariant i >= 1 ==> AllBytes(buf[..], 0, buf.Length, ByteOf(i - 1))
    {
      Memset(buf, 0, i, buf.Length);
      i := i + 1;
    }
  }

  /**
   * One side's touch of its view of the shared segment during a handoff:
   * nothing when there is no working set, otherwise every working-set byte
   * takes the fill value while the header page, and the flag in it, are
   * left alone.
   */
  method TouchWorkingSet(seg: array<byte>, ws: nat, i: int)
    requires seg.Length == SegmentSize(ws)
    modifies seg
    ensures AllBytes(seg[..], WorkingSetOffset, seg.Length, ByteOf(i))
    ensures seg[..WorkingSetOffset] == old(seg[..WorkingSetOffset])
    ensures ws == 0 ==> seg[..] == old(seg[..])
  {
    if ws != 0 {
      Memset(seg, WorkingSetOffset, i, WorkingSetBytes(ws));
    }
  }
}
