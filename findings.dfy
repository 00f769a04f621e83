/**
 * Two defects of the receive loop, each shown on a concrete read, beside the
 * corrected behaviour.
 */
module Findings {
  import opened Bytes
  import opened Telemetry
  import opened FrameBuilder

  // ---------------------------------------------------------------------------
  // The data-dependent skip jumps over frames.

  /**
   * Seven bytes holding a valid header at offset 1. The probe at 0 passes the
   * first comparison and fails the second, so the index moves to 2 and offset 1
   * is never probed; no probe fits after that. The corrected scan finds it.
   */
  lemma SkipMissesFrame()
    ensures var rx: seq<byte> := [0x00, 0x00, 0x5A, 0x5D, 0x82, 0x10, 0x00];
      HeaderAt(rx, 1) && ScanFrom(rx, 0) == NotFound && Cycle(rx) == NoFrame && ScanResync(rx, 0) == Found(1)
  {
    var rx: seq<byte> := [0x00, 0x00, 0x5A, 0x5D, 0x82, 0x10, 0x00];
    assert Evaluated(rx, 0) == 2;
    assert ScanFrom(rx, 2) == NotFound;
  }

  /**
   * One zero byte of noise in front of a well-formed frame: the as-written scan
   * does not accept the frame at offset 1, while the corrected scan finds it
   * there and it decodes to the record it carries.
   */
  lemma AsWrittenSkipsFrameAfterOneNoiseByte(st: BmsState)
    requires Representable(st)
    ensures var rx := [0x00] + EncodeFrame(st);
      HeaderAt(rx, 1) && ScanFrom(rx, 0) != Found(1)
      && ScanResync(rx, 0) == Found(1) && DecodeAt(rx, 1) == st
  {
    var rx := [0x00] + EncodeFrame(st);
    assert rx[1] == 0x00;
    assert Evaluated(rx, 0) == 2;
    var r := ScanFrom(rx, 2);
    assert r.Found? ==> r.start >= 2;
    ResyncFindsFrameAfterNoise([0x00], st);
  }

  // ---------------------------------------------------------------------------
  // A header is decoded without checking that the frame was received.

  /** A probe at a 0xA5 byte always moves on by exactly one. */
  lemma {:induction false} ScanStepsOverRejectedBytes(rx: seq<byte>, i: nat, n: nat)
    requires i <= n && n + HeaderSize <= |rx|
    requires forall k :: i <= k < n ==> rx[k] == RejectedFirstByte
    ensures ScanFrom(rx, i) == ScanFrom(rx, n)
    decreases n - i
  {
    if i < n {
      assert Evaluated(rx, i) == 1;
      ScanStepsOverRejectedBytes(rx, i + 1, n);
    }
  }

  /**
   * A read of just a header is accepted by the scan, and the source would go
   * on to decode bytes 6..95, none of which were received. The model reports
   * it as `Truncated` instead.
   */
  lemma HeaderOnlyReadIsAccepted()
    ensures ScanFrom(Header, 0) == Found(0) && |Header| < FrameEnd
    ensures Cycle(Header) == Truncated(0)
  {
  }

  /**
   * A full 1024-byte read of 0xA5 bytes ending in a header: the scan steps one
   * byte at a time and accepts the header at 1018, whose frame would end at
   * 1114, beyond the 1024-byte buffer the source reads into. The model reports
   * it as `Truncated`.
   */
  lemma HeaderAtBufferEndOverruns()
    ensures var rx := seq(BufSize - HeaderSize, _ => RejectedFirstByte) + Header;
      |rx| == BufSize && ScanFrom(rx, 0) == Found(BufSize - HeaderSize)
      && BufSize < BufSize - HeaderSize + FrameEnd
      && Cycle(rx) == Truncated(BufSize - HeaderSize)
  {
    var rx := seq(BufSize - HeaderSize, _ => RejectedFirstByte) + Header;
    ScanStepsOverRejectedBytes(rx, 0, BufSize - HeaderSize);
    assert rx[BufSize - HeaderSize..] == Header;
    assert HeaderAt(rx, BufSize - HeaderSize);
  }
}
