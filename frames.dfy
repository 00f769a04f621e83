/**
 * A reference encoder for telemetry frames, the inverse of the decode: it lays
 * a record out in the positions the decoder reads, with zeros in every byte the
 * decoder ignores. The firmware has no such encoder; it exists to state the
 * decoder's round trip and the effect of single bytes.
 */
module FrameBuilder {
  import opened Bytes
  import opened Telemetry

  /** A header the scan accepts. */
  const Header: seq<byte> := [0x00, SecondHeaderByte, MinDeclaredLength, CommandCode, SubTypeHigh, SubTypeLow]

  /** A record that a one-byte-per-field frame can carry. */
  predicate Representable(st: BmsState) {
    |st.batteryVoltages| == CellCount && |st.alarms| == AlarmCount
    && st.voltage <= 0xFF && 0 <= st.current <= 0xFF && st.batteryLevel <= 0xFF && st.maxVolDiff <= 0xFF
    && 0 <= st.mosTemp <= 0xFF && 0 <= st.batteryTemp <= 0xFF && st.avgVoltage <= 0xFF
    && forall i :: 0 <= i < CellCount ==> st.batteryVoltages[i] <= 0xFF
  }

  /** The first byte of pair `p`: the value of a numeric field, zero otherwise. */
  function PairFirst(st: BmsState, p: nat): byte
    requires Representable(st) && p < PairCount
  {
    if p == VoltagePair then st.voltage
    else if p == CurrentPair then st.current
    else if p == LevelPair then st.batteryLevel
    else if p == MaxVolDiffPair then st.maxVolDiff
    else if p == MosTempPair then st.mosTemp
    else if p == BatteryTempPair then st.batteryTemp
    else if p == AvgVoltagePair then st.avgVoltage
    else if FirstCellPair <= p < FirstCellPair + CellCount then st.batteryVoltages[p - FirstCellPair]
    else 0
  }

  /** The second byte of pair `p`: the value of a flag or status field, zero otherwise. */
  function PairSecond(st: BmsState, p: nat): byte
    requires Representable(st) && p < PairCount
  {
    if p == SysAlarmPair then st.sysAlarm
    else if p == BalanceSwPair then st.balanceSwStatus
    else if p == ChargeSwPair then st.chargeSwStatus
    else if p == OutputSwPair then st.outputSwStatus
    else if FirstAlarmPair <= p < FirstAlarmPair + AlarmCount then st.alarms[p - FirstAlarmPair]
    else 0
  }

  function Payload(st: BmsState): (p: seq<byte>)
    requires Representable(st)
  {
    seq(2 * PairCount, k requires 0 <= k < 2 * PairCount =>
      if k % 2 == 0 then PairFirst(st, k / 2) else PairSecond(st, k / 2))
  }

  /** A complete 96-byte frame carrying `st`. */
  function EncodeFrame(st: BmsState): (f: seq<byte>)
    requires Representable(st)
    ensures |f| == FrameEnd && HeaderAt(f, 0)
  {
    Header + Payload(st)
  }

  /** Decoding an encoded frame gives back the record. */
  lemma DecodeEncode(st: BmsState)
    requires Representable(st)
    ensures DecodeAt(EncodeFrame(st), 0) == st
  {
    var f := EncodeFrame(st);
    var d := DecodeAt(f, 0);
    assert f[6] == PairFirst(st, 0);
    assert f[8] == PairFirst(st, 1);
    assert f[12] == PairFirst(st, 3);
    assert f[14] == PairFirst(st, 4);
    assert f[16] == PairFirst(st, 5);
    assert f[18] == PairFirst(st, 6);
    assert f[21] == PairSecond(st, 7);
    assert f[22] == PairFirst(st, 8);
    assert f[25] == PairSecond(st, 9);
    assert f[27] == PairSecond(st, 10);
    assert f[29] == PairSecond(st, 11);
    forall i | 0 <= i < CellCount
      ensures d.batteryVoltages[i] == st.batteryVoltages[i]
    {
      assert f[HeaderSize + 2 * (FirstCellPair + i)] == PairFirst(st, FirstCellPair + i);
    }
    forall j | 0 <= j < AlarmCount
      ensures d.alarms[j] == st.alarms[j]
    {
      assert f[HeaderSize + 2 * (FirstAlarmPair + j) + 1] == PairSecond(st, FirstAlarmPair + j);
    }
    assert d.batteryVoltages == st.batteryVoltages;
    assert d.alarms == st.alarms;
  }

  /** A read holding exactly one encoded frame is decoded at offset 0 into that record. */
  lemma EncodedFrameIsDecoded(st: BmsState)
    requires Representable(st)
    ensures Cycle(EncodeFrame(st)) == Decoded(0)
    ensures DecodeAt(EncodeFrame(st), 0) == st
  {
    DecodeEncode(st);
  }

  /**
   * With the one-byte resync, a frame preceded by noise in which no header
   * starts is found right after the noise and decodes to its record.
   */
  lemma ResyncFindsFrameAfterNoise(noise: seq<byte>, st: BmsState)
    requires Representable(st)
    requires forall t :: 0 <= t < |noise| ==> !HeaderAt(noise + EncodeFrame(st), t)
    ensures ScanResync(noise + EncodeFrame(st), 0) == Found(|noise|)
    ensures DecodeAt(noise + EncodeFrame(st), |noise|) == st
  {
    var f := EncodeFrame(st);
    var rx := noise + f;
    assert forall k :: 0 <= k < |f| ==> rx[|noise| + k] == f[k];
    assert HeaderAt(rx, |noise|);
    ResyncFindsFirstHeader(rx, 0, |noise|);
    DecodeReadsOnlyUsedBytes(rx, |noise|, f, 0);
    DecodeEncode(st);
  }

  /**
   * One alarm alone: a zero frame whose only nonzero byte is the second byte
   * of alarm pair `j` raises exactly alarm `j`, with the value of that byte,
   * and decodes every other field as zero.
   */
  lemma SingleAlarm(j: nat, v: byte)
    requires j < AlarmCount && v != 0
    ensures var f := EncodeFrame(ZeroState)[HeaderSize + 2 * (FirstAlarmPair + j) + 1 := v];
      DecodeAt(f, 0) == ZeroState.(alarms := ZeroState.alarms[j := v])
      && forall k :: 0 <= k < AlarmCount ==> (DecodeAt(f, 0).alarms[k] != 0 <==> k == j)
  {
    assert Representable(ZeroState);
    var st := ZeroState.(alarms := ZeroState.alarms[j := v]);
    var f := EncodeFrame(ZeroState)[HeaderSize + 2 * (FirstAlarmPair + j) + 1 := v];
    forall k | 0 <= k < FrameEnd
      ensures f[k] == EncodeFrame(st)[k]
    {
    }
    assert f == EncodeFrame(st);
    DecodeEncode(st);
  }
}
