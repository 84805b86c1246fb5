/// The supported-PID bitmaps of service $01 (`obdWriteSupportedPids`): a scan of a
/// sentinel-terminated PID table that sets one bit of a `uint32_t` per entry, sent
/// as a four-byte packet.
///
/// The word is an integer below 2^32; `1 << p` is `Pow2(p)` and `|` is `BitOr`,
/// defined one bit at a time.
module ObdSupported {
  import opened Wire
  import opened ObdIds
  import opened ObdPacket

  /** `1 << p`. */
  function Pow2(p: nat): (r: nat)
    ensures r >= 1
  {
    if p == 0 then 1 else 2 * Pow2(p - 1)
  }

  /** Whether bit `p` of `m` is set, `(m >> p) & 1`. */
  predicate HasBit(m: nat, p: nat) {
    if p == 0 then m % 2 == 1 else HasBit(m / 2, p - 1)
  }

  /** C's bitwise OR `a | b`, computed from the least significant bit up. */
  function BitOr(a: nat, b: nat): nat
    decreases a + b
  {
    if a == 0 then b
    else if b == 0 then a
    else 2 * BitOr(a / 2, b / 2) + (if a % 2 == 1 || b % 2 == 1 then 1 else 0)
  }

  /** The bit position `1 << (31 + bitOffset - pid)` aims at. */
  function Position(pid: int, bitOffset: int): int {
    31 + bitOffset - pid
  }

  /** The bit one table entry contributes. A shift count outside 0..31 is undefined
      behaviour in C; the model lets such an entry contribute nothing. */
  function Contribution(pid: int, bitOffset: int): nat {
    var p := Position(pid, bitOffset);
    if 0 <= p < 32 then Pow2(p) else 0
  }

  /** The word obtained by OR-ing the contributions of `es`, first to last. */
  function MaskOf(es: seq<int>, bitOffset: int): nat {
    if es == [] then 0 else BitOr(MaskOf(es[..|es| - 1], bitOffset), Contribution(es[|es| - 1], bitOffset))
  }

  /** A table the scan can walk without reading past its end: it has a
      non-positive entry (the sentinel) or at least 32 entries. */
  predicate Scannable(t: seq<int>) {
    |t| >= 32 || exists k :: 0 <= k < |t| && t[k] <= 0
  }

  /** Where the scan `i < 32 && supportedPids[i] > 0` started at `i` stops:
      the first index from `i` on that holds a non-positive entry, or 32. */
  function ScanEnd(t: seq<int>, i: nat): (r: nat)
    requires Scannable(t) && i <= 32
    requires forall k :: 0 <= k < i ==> k < |t| && t[k] > 0
    ensures i <= r <= 32 && r <= |t|
    ensures forall k :: i <= k < r ==> t[k] > 0
    ensures r < 32 ==> t[r] <= 0
    decreases 32 - i
  {
    if i == 32 then i
    else
      assert i < |t|;
      if t[i] <= 0 then i else ScanEnd(t, i + 1)
  }

  /** While every entry so far is positive, the scan has not reached the end of a scannable table. */
  lemma ScanInBounds(t: seq<int>, i: nat)
    requires Scannable(t) && i < 32
    requires forall k :: 0 <= k < i ==> k < |t| && t[k] > 0
    ensures i < |t|
  {
  }

  /** The scan stops at `ScanEnd(t, 0)` and nowhere else. */
  lemma ScanStops(t: seq<int>, i: nat)
    requires Scannable(t) && i <= 32 && i <= |t|
    requires forall k :: 0 <= k < i ==> t[k] > 0
    requires i < 32 ==> t[i] <= 0
    ensures i == ScanEnd(t, 0)
  {
  }

  /** The entries the scan takes: at most 32, all positive. */
  function Scanned(t: seq<int>): (es: seq<int>)
    requires Scannable(t)
    ensures |es| <= 32 && forall k :: 0 <= k < |es| ==> es[k] > 0
  {
    t[..ScanEnd(t, 0)]
  }

  /** The windows' tables, each ended by its sentinel. */
  lemma TablesScannable()
    ensures Scannable(SupportedPids0120) && Scannable(SupportedPids2140) && Scannable(SupportedPids4160)
  {
    assert SupportedPids0120[12] <= 0;
    assert SupportedPids2140[1] <= 0;
    assert SupportedPids4160[4] <= 0;
  }

  /** The scan of each table takes the entries before its sentinel. */
  lemma TablesScanned()
    ensures Scannable(SupportedPids0120) && Scanned(SupportedPids0120) == SupportedPids0120[..12]
    ensures Scannable(SupportedPids2140) && Scanned(SupportedPids2140) == [0x24]
    ensures Scannable(SupportedPids4160) && Scanned(SupportedPids4160) == [0x42, 0x52, 0x5E, 0x5C]
  {
    TablesScannable();
    ScanStops(SupportedPids0120, 12);
    ScanStops(SupportedPids2140, 1);
    ScanStops(SupportedPids4160, 4);
  }

  /** The bitmap `obdWriteSupportedPids` builds from table `t`. */
  function SupportedMask(t: seq<int>, bitOffset: int): Word
    requires Scannable(t)
  {
    MaskFits(Scanned(t), bitOffset);
    MaskOf(Scanned(t), bitOffset)
  }

  /** The frame `obdWriteSupportedPids` sends. */
  function SupportedFrame(pid: Byte, bitOffset: int, t: seq<int>): Frame
    requires Scannable(t)
  {
    PacketFrame(1, pid, 4, SupportedMask(t, bitOffset))
  }

  /** `obdWriteSupportedPids`: gathers the bitmap, then sends it as a four-byte
      service $01 packet. */
  method ObdWriteSupportedPids(pid: Byte, bitOffset: int, t: seq<int>) returns (sent: Frame)
    requires Scannable(t)
    ensures sent == SupportedFrame(pid, bitOffset, t)
  {
    var value := GatherSupported(bitOffset, t);
    sent := ObdSendPacket(1, pid, 4, value);
  }

  /** The loop of `obdWriteSupportedPids` that gathers the 32 bit fields: while
      `i < 32` and the entry is positive, OR in `1 << (31 + bitOffset - entry)`. */
  method GatherSupported(bitOffset: int, t: seq<int>) returns (value: Word)
    requires Scannable(t)
    ensures value == SupportedMask(t, bitOffset)
  {
    value := 0;
    var i := 0;
    while i < 32 && t[i] > 0
      invariant 0 <= i <= 32 && i <= |t| && (i < 32 ==> i < |t|)
      invariant forall k :: 0 <= k < i ==> t[k] > 0
      invariant value == MaskOf(t[..i], bitOffset)
    {
      var shift := 31 + bitOffset - t[i];
      MaskStep(t, i, bitOffset);
      MaskFits(t[..i + 1], bitOffset);
      if 0 <= shift < 32 {
        value := BitOr(value, Pow2(shift));
      }
      i := i + 1;
      if i < 32 {
        ScanInBounds(t, i);
      }
    }
    ScanStops(t, i);
    assert t[..i] == Scanned(t);
  }

  /** One step of the scan: entry `i` ORs in its contribution. */
  lemma MaskStep(t: seq<int>, i: nat, bitOffset: int)
    requires i < |t|
    ensures MaskOf(t[..i + 1], bitOffset) == BitOr(MaskOf(t[..i], bitOffset), Contribution(t[i], bitOffset))
    ensures !(0 <= Position(t[i], bitOffset) < 32) ==> MaskOf(t[..i + 1], bitOffset) == MaskOf(t[..i], bitOffset)
  {
    assert t[..i + 1][..i] == t[..i];
  }

  /** The bitmap fits in 32 bits. */
  lemma {:induction false} MaskFits(es: seq<int>, bitOffset: int)
    ensures MaskOf(es, bitOffset) < 0x1_0000_0000
  {
    Pow2Of32();
    if es != [] {
      MaskFits(es[..|es| - 1], bitOffset);
      var p := Position(es[|es| - 1], bitOffset);
      if 0 <= p < 32 {
        Pow2Below(p, 32);
      }
      OrBelow(MaskOf(es[..|es| - 1], bitOffset), Contribution(es[|es| - 1], bitOffset), 32);
    }
  }

  lemma Pow2Of32()
    ensures Pow2(32) == 0x1_0000_0000
  {
    assert Pow2(8) == 0x100;
    assert Pow2(16) == 0x1_0000;
    assert Pow2(24) == 0x100_0000;
  }

  /** Powers of two grow strictly. */
  lemma {:induction false} Pow2Below(p: nat, k: nat)
    requires p < k
    ensures Pow2(p) < Pow2(k)
  {
    if p < k - 1 {
      Pow2Below(p, k - 1);
    }
  }

  /** OR of two `k`-bit numbers is a `k`-bit number. */
  lemma {:induction false} OrBelow(a: nat, b: nat, k: nat)
    requires a < Pow2(k) && b < Pow2(k)
    ensures BitOr(a, b) < Pow2(k)
    decreases a + b
  {
    if a != 0 && b != 0 {
      OrBelow(a / 2, b / 2, k - 1);
    }
  }

  /** Zero has no bit set. */
  lemma {:induction false} ZeroHasNoBit(p: nat)
    ensures !HasBit(0, p)
  {
    if p > 0 {
      ZeroHasNoBit(p - 1);
    }
  }

  /** A bit of an OR is set exactly when it is set in one of the operands. */
  lemma {:induction false} OrHasBit(a: nat, b: nat, p: nat)
    ensures HasBit(BitOr(a, b), p) <==> HasBit(a, p) || HasBit(b, p)
    decreases p
  {
    if a == 0 || b == 0 {
      ZeroHasNoBit(p);
    } else if p > 0 {
      OrHasBit(a / 2, b / 2, p - 1);
    }
  }

  /** `1 << t` has bit `p` set exactly when `t == p`. */
  lemma {:induction false} Pow2HasBit(t: nat, p: nat)
    ensures HasBit(Pow2(t), p) <==> t == p
  {
    if t == 0 {
      if p > 0 {
        ZeroHasNoBit(p - 1);
      }
    } else if p > 0 {
      Pow2HasBit(t - 1, p - 1);
    }
  }

  /** Two numbers with the same bits are equal. */
  lemma {:induction false} BitsDetermine(a: nat, b: nat)
    requires forall p: nat :: HasBit(a, p) == HasBit(b, p)
    ensures a == b
    decreases a + b
  {
    if a != 0 || b != 0 {
      assert HasBit(a, 0) == HasBit(b, 0);
      forall p: nat
        ensures HasBit(a / 2, p) == HasBit(b / 2, p)
      {
        assert HasBit(a, p + 1) == HasBit(b, p + 1);
      }
      BitsDetermine(a / 2, b / 2);
    }
  }

  /** Entry `pid` aims at bit `p`: its shift count is in range and equals `p`. */
  predicate Aims(pid: int, bitOffset: int, p: nat) {
    p < 32 && Position(pid, bitOffset) == p
  }

  /** An entry's contribution sets bit `p` exactly when the entry aims at `p`. */
  lemma ContributionHasBit(pid: int, bitOffset: int, p: nat)
    ensures HasBit(Contribution(pid, bitOffset), p) <==> Aims(pid, bitOffset, p)
  {
    var s := Position(pid, bitOffset);
    if 0 <= s < 32 {
      Pow2HasBit(s, p);
    } else {
      ZeroHasNoBit(p);
    }
  }

  /** Bit `p` of the bitmap is set if and only if some entry aims at `p`. */
  lemma {:induction false} MaskBits(es: seq<int>, bitOffset: int, p: nat)
    ensures HasBit(MaskOf(es, bitOffset), p) <==> exists k :: 0 <= k < |es| && Aims(es[k], bitOffset, p)
  {
    if es == [] {
      ZeroHasNoBit(p);
    } else {
      var init := es[..|es| - 1];
      var last := es[|es| - 1];
      MaskBits(init, bitOffset, p);
      OrHasBit(MaskOf(init, bitOffset), Contribution(last, bitOffset), p);
      ContributionHasBit(last, bitOffset, p);
      if exists k :: 0 <= k < |es| && Aims(es[k], bitOffset, p) {
        var k :| 0 <= k < |es| && Aims(es[k], bitOffset, p);
        if k < |es| - 1 {
          assert init[k] == es[k];
        }
      }
      if exists k :: 0 <= k < |init| && Aims(init[k], bitOffset, p) {
        var k :| 0 <= k < |init| && Aims(init[k], bitOffset, p);
        assert es[k] == init[k];
      }
    }
  }

  /** The bitmap depends only on which PIDs occur, not on their order or repetition. */
  lemma MaskOrderIndependent(es: seq<int>, fs: seq<int>, bitOffset: int)
    requires forall x :: x in es <==> x in fs
    ensures MaskOf(es, bitOffset) == MaskOf(fs, bitOffset)
  {
    forall p: nat
      ensures HasBit(MaskOf(es, bitOffset), p) == HasBit(MaskOf(fs, bitOffset), p)
    {
      MaskBits(es, bitOffset, p);
      MaskBits(fs, bitOffset, p);
      if exists k :: 0 <= k < |es| && Aims(es[k], bitOffset, p) {
        var k :| 0 <= k < |es| && Aims(es[k], bitOffset, p);
        assert es[k] in fs;
      }
      if exists k :: 0 <= k < |fs| && Aims(fs[k], bitOffset, p) {
        var k :| 0 <= k < |fs| && Aims(fs[k], bitOffset, p);
        assert fs[k] in es;
      }
    }
    BitsDetermine(MaskOf(es, bitOffset), MaskOf(fs, bitOffset));
  }

  /** A PID whose bit lies in the word is advertised exactly when the scan takes it. */
  lemma Advertised(t: seq<int>, bitOffset: int, q: int)
    requires Scannable(t) && 0 <= Position(q, bitOffset) < 32
    ensures HasBit(SupportedMask(t, bitOffset), Position(q, bitOffset)) <==> q in Scanned(t)
  {
    var es := Scanned(t);
    var p := Position(q, bitOffset);
    MaskBits(es, bitOffset, p);
    if q in es {
      var k :| 0 <= k < |es| && es[k] == q;
      assert Aims(es[k], bitOffset, p);
    }
  }

  /** The bitmap frame: service $01 echo, declared length 6, the PID echo, and
      bytes 3..6 holding the bitmap big-endian, in which the bit of PID `q` is set
      exactly when the scan takes `q`. */
  lemma SupportedFrameLayout(pid: Byte, bitOffset: int, t: seq<int>, q: int)
    requires Scannable(t) && 0 <= Position(q, bitOffset) < 32
    ensures var f := SupportedFrame(pid, bitOffset, t);
      && f.id == ObdTestResponse && |f.data| == 8
      && f.data[0] == 6 && f.data[1] == 0x41 && f.data[2] == pid
      && BeValue(f.data[3..7]) == SupportedMask(t, bitOffset)
      && (HasBit(BeValue(f.data[3..7]), Position(q, bitOffset)) <==> q in Scanned(t))
  {
    var m := SupportedMask(t, bitOffset);
    Pow2Of32();
    assert Radix(4) == 0x1_0000_0000;
    PacketLayout(1, pid, 4, m);
    Advertised(t, bitOffset, q);
  }
}
