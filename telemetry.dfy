/**
 * The JK-BMS telemetry frame as the receive loop of `rs485_read_task` sees it:
 * the six header comparisons, the header scan with its data-dependent skip,
 * the positional field decode, and the outcome of one receive cycle.
 * Everything here works on `rx`, the bytes actually received in one read.
 */
module Telemetry {
  import opened Bytes

  /** Header: byte0 must differ from 0xA5, then 0x5A, a length byte of at least 0x5D, command 0x82, sub-type 0x10 0x00. */
  const HeaderSize: nat := 6
  const RejectedFirstByte: byte := 0xA5
  const SecondHeaderByte: byte := 0x5A
  const MinDeclaredLength: byte := 0x5D
  const CommandCode: byte := 0x82
  const SubTypeHigh: byte := 0x10
  const SubTypeLow: byte := 0x00

  /** The payload after the header: 45 two-byte pairs, so a decoded frame ends 96 bytes after its start. */
  const PairCount: nat := 45
  const FrameEnd: nat := HeaderSize + 2 * PairCount

  /** Pair indices of the fields, in wire order (pair 2 is reserved and skipped). */
  const VoltagePair: nat := 0
  const CurrentPair: nat := 1
  const ReservedPair: nat := 2
  const LevelPair: nat := 3
  const MaxVolDiffPair: nat := 4
  const MosTempPair: nat := 5
  const BatteryTempPair: nat := 6
  const SysAlarmPair: nat := 7
  const AvgVoltagePair: nat := 8
  const BalanceSwPair: nat := 9
  const ChargeSwPair: nat := 10
  const OutputSwPair: nat := 11
  const FirstCellPair: nat := 12
  const CellCount: nat := 24
  const FirstAlarmPair: nat := 36
  const AlarmCount: nat := 9

  /** Positions in `BmsState.alarms`, in the order of the pairs on the wire. */
  const OverDischarge: nat := 0
  const OverCharge: nat := 1
  const OverCurrent: nat := 2
  const MosHeat: nat := 3
  const BatteryHeat: nat := 4
  const ShortCurrent: nat := 5
  const Communicate: nat := 6
  const EqualizingLine: nat := 7
  const BatteryCount: nat := 8

  /**
   * The decoded record `struct jkbms_t`. `voltage` and `current` are the integer
   * numerators of the source's float fields (hundredths of a volt, tenths of an amp).
   */
  datatype BmsState = BmsState(
    voltage: u16,
    current: i16,
    batteryLevel: u16,
    maxVolDiff: u16,
    mosTemp: i16,
    batteryTemp: i16,
    avgVoltage: u16,
    balanceSwStatus: byte,
    chargeSwStatus: byte,
    outputSwStatus: byte,
    batteryVoltages: seq<u16>,
    sysAlarm: byte,
    alarms: seq<byte>)

  /** The statically zero-initialised record. */
  const ZeroState: BmsState := BmsState(0, 0, 0, 0, 0, 0, 0, 0, 0, 0, seq(CellCount, _ => 0), 0, seq(AlarmCount, _ => 0))

  /** The bytes of one read: the first `len` bytes of the buffer, none when `len` is 0 or the read failed (-1). */
  function Received(buf: seq<byte>, len: int): (rx: seq<byte>)
    requires len <= |buf|
    ensures |rx| == (if len < 0 then 0 else len)
    ensures forall k :: 0 <= k < |rx| ==> rx[k] == buf[k]
  {
    if len <= 0 then [] else buf[..len]
  }

  // ---------------------------------------------------------------------------
  // Header recognition

  /** All six header conditions hold at offset `s`. */
  predicate HeaderAt(rx: seq<byte>, s: nat)
    requires s + HeaderSize <= |rx|
  {
    rx[s] != RejectedFirstByte && rx[s + 1] == SecondHeaderByte && rx[s + 2] >= MinDeclaredLength
    && rx[s + 3] == CommandCode && rx[s + 4] == SubTypeHigh && rx[s + 5] == SubTypeLow
  }

  /** The `j`-th comparison of the short-circuit `&&` chain, probing offset `s`. */
  predicate Test(rx: seq<byte>, s: nat, j: nat)
    requires s + HeaderSize <= |rx| && j < HeaderSize
  {
    match j
    case 0 => rx[s] != RejectedFirstByte
    case 1 => rx[s + 1] == SecondHeaderByte
    case 2 => rx[s + 2] >= MinDeclaredLength
    case 3 => rx[s + 3] == CommandCode
    case 4 => rx[s + 4] == SubTypeHigh
    case _ => rx[s + 5] == SubTypeLow
  }

  /** The header is exactly the conjunction of the six comparisons. */
  lemma HeaderAtIsAllTests(rx: seq<byte>, s: nat)
    requires s + HeaderSize <= |rx|
    ensures HeaderAt(rx, s) <==> forall j :: 0 <= j < HeaderSize ==> Test(rx, s, j)
  {
    if forall j :: 0 <= j < HeaderSize ==> Test(rx, s, j) {
      assert Test(rx, s, 0) && Test(rx, s, 1) && Test(rx, s, 2);
      assert Test(rx, s, 3) && Test(rx, s, 4) && Test(rx, s, 5);
    }
  }

  /**
   * How far one probe moves the scan index: every comparison the `&&` chain
   * evaluates performs one `index++`, so the index moves past the passing
   * comparisons and the first failing one, or past all six.
   */
  function Evaluated(rx: seq<byte>, s: nat): (n: nat)
    requires s + HeaderSize <= |rx|
    ensures 1 <= n <= HeaderSize
    ensures forall j :: 0 <= j < n - 1 ==> Test(rx, s, j)
    ensures n < HeaderSize ==> !Test(rx, s, n - 1)
    ensures HeaderAt(rx, s) ==> n == HeaderSize
  {
    if !Test(rx, s, 0) then 1
    else if !Test(rx, s, 1) then 2
    else if !Test(rx, s, 2) then 3
    else if !Test(rx, s, 3) then 4
    else if !Test(rx, s, 4) then 5
    else 6
  }

  datatype Scan = NotFound | Found(start: nat)

  /**
   * The scan as written: probe at `i` while `i < len - 5`; accept on a header,
   * otherwise skip by the number of comparisons evaluated.
   */
  function ScanFrom(rx: seq<byte>, i: nat): (r: Scan)
    ensures r.Found? ==> i <= r.start && r.start + HeaderSize <= |rx| && HeaderAt(rx, r.start)
    decreases |rx| - i
  {
    if i + HeaderSize <= |rx| then
      if HeaderAt(rx, i) then Found(i) else ScanFrom(rx, i + Evaluated(rx, i))
    else NotFound
  }

  /** A probe at `s` accepts exactly when the six header conditions hold at `s`. */
  lemma AcceptedAtProbe(rx: seq<byte>, s: nat)
    ensures ScanFrom(rx, s) == Found(s) <==>
      (s + HeaderSize <= |rx| && rx[s] != 0xA5 && rx[s + 1] == 0x5A && rx[s + 2] >= 0x5D
       && rx[s + 3] == 0x82 && rx[s + 4] == 0x10 && rx[s + 5] == 0x00)
  {
    if s + HeaderSize <= |rx| && !HeaderAt(rx, s) {
      var r := ScanFrom(rx, s + Evaluated(rx, s));
      assert r.Found? ==> r.start > s;
    }
  }

  /** A probe that fails moves on by 1 to 6 bytes and the scan resumes there. */
  lemma MismatchAdvances(rx: seq<byte>, s: nat)
    requires s + HeaderSize <= |rx| && !HeaderAt(rx, s)
    ensures 1 <= Evaluated(rx, s) <= HeaderSize
    ensures ScanFrom(rx, s) == ScanFrom(rx, s + Evaluated(rx, s))
  {
  }

  /** Fewer than six received bytes: the loop body never runs. */
  lemma ShortReadFindsNothing(rx: seq<byte>)
    requires |rx| < HeaderSize
    ensures ScanFrom(rx, 0) == NotFound
  {
  }

  /**
   * The corrected scan: on a mismatch move on by exactly one byte. It finds
   * the first header at or after `i`, and reports none only when there is none.
   */
  function ScanResync(rx: seq<byte>, i: nat): (r: Scan)
    ensures r.Found? ==> i <= r.start && r.start + HeaderSize <= |rx| && HeaderAt(rx, r.start)
    ensures r.Found? ==> forall t :: i <= t < r.start ==> !HeaderAt(rx, t)
    ensures r.NotFound? ==> forall t :: i <= t && t + HeaderSize <= |rx| ==> !HeaderAt(rx, t)
    decreases |rx| - i
  {
    if i + HeaderSize <= |rx| then
      if HeaderAt(rx, i) then Found(i) else ScanResync(rx, i + 1)
    else NotFound
  }

  /** The corrected scan finds a header at `s` whenever no header starts between `i` and `s`. */
  lemma ResyncFindsFirstHeader(rx: seq<byte>, i: nat, s: nat)
    requires i <= s && s + HeaderSize <= |rx| && HeaderAt(rx, s)
    requires forall t :: i <= t < s ==> !HeaderAt(rx, t)
    ensures ScanResync(rx, i) == Found(s)
  {
    var r := ScanResync(rx, i);
    assert r.Found?;
    assert !(r.start < s) && !(r.start > s);
  }

  /** Whatever the as-written scan accepts, the corrected scan finds a header there or earlier. */
  lemma ResyncNoLaterThanAsWritten(rx: seq<byte>, i: nat)
    requires ScanFrom(rx, i).Found?
    ensures ScanResync(rx, i).Found? && ScanResync(rx, i).start <= ScanFrom(rx, i).start
  {
  }

  // ---------------------------------------------------------------------------
  // Field decode

  /** Pair `k` of the frame starting at `s` occupies bytes s+6+2k and s+7+2k. */
  function FirstByte(rx: seq<byte>, s: nat, k: nat): byte
    requires s + HeaderSize + 2 * k + 2 <= |rx|
  {
    rx[s + HeaderSize + 2 * k]
  }

  function SecondByte(rx: seq<byte>, s: nat, k: nat): byte
    requires s + HeaderSize + 2 * k + 2 <= |rx|
  {
    rx[s + HeaderSize + 2 * k + 1]
  }

  /** The 24 cell voltages: the first byte of pairs 12..35. */
  function CellVoltages(rx: seq<byte>, s: nat): (c: seq<u16>)
    requires s + FrameEnd <= |rx|
  {
    seq(CellCount, i requires 0 <= i < CellCount => rx[s + HeaderSize + 2 * (FirstCellPair + i)] as u16)
  }

  /** The nine alarm flags: the second byte of pairs 36..44. */
  function AlarmBytes(rx: seq<byte>, s: nat): (a: seq<byte>)
    requires s + FrameEnd <= |rx|
  {
    seq(AlarmCount, j requires 0 <= j < AlarmCount => rx[s + HeaderSize + 2 * (FirstAlarmPair + j) + 1])
  }

  /**
   * The decode of a frame starting at `s`: numeric fields take the first byte
   * of their pair (a one-byte cast, never a 16-bit read), flag and status
   * fields take the second byte.
   */
  function DecodeAt(rx: seq<byte>, s: nat): (st: BmsState)
    requires s + FrameEnd <= |rx|
    ensures |st.batteryVoltages| == CellCount && |st.alarms| == AlarmCount
    ensures st.voltage <= 0xFF && 0 <= st.current <= 0xFF && st.batteryLevel <= 0xFF && st.maxVolDiff <= 0xFF
    ensures 0 <= st.mosTemp <= 0xFF && 0 <= st.batteryTemp <= 0xFF && st.avgVoltage <= 0xFF
    ensures forall i :: 0 <= i < CellCount ==> st.batteryVoltages[i] <= 0xFF
  {
    BmsState(
      voltage := FirstByte(rx, s, VoltagePair),
      current := FirstByte(rx, s, CurrentPair),
      batteryLevel := FirstByte(rx, s, LevelPair),
      maxVolDiff := FirstByte(rx, s, MaxVolDiffPair),
      mosTemp := FirstByte(rx, s, MosTempPair),
      batteryTemp := FirstByte(rx, s, BatteryTempPair),
      avgVoltage := FirstByte(rx, s, AvgVoltagePair),
      balanceSwStatus := SecondByte(rx, s, BalanceSwPair),
      chargeSwStatus := SecondByte(rx, s, ChargeSwPair),
      outputSwStatus := SecondByte(rx, s, OutputSwPair),
      batteryVoltages := CellVoltages(rx, s),
      sysAlarm := SecondByte(rx, s, SysAlarmPair),
      alarms := AlarmBytes(rx, s))
  }

  /** The decode in absolute offsets from the frame start: cell i at s+30+2i, alarm j at s+79+2j. */
  lemma DecodeAtLayout(rx: seq<byte>, s: nat)
    requires s + FrameEnd <= |rx|
    ensures DecodeAt(rx, s).voltage == rx[s + 6] && DecodeAt(rx, s).current == rx[s + 8]
    ensures DecodeAt(rx, s).batteryLevel == rx[s + 12] && DecodeAt(rx, s).maxVolDiff == rx[s + 14]
    ensures DecodeAt(rx, s).mosTemp == rx[s + 16] && DecodeAt(rx, s).batteryTemp == rx[s + 18]
    ensures DecodeAt(rx, s).sysAlarm == rx[s + 21] && DecodeAt(rx, s).avgVoltage == rx[s + 22]
    ensures DecodeAt(rx, s).balanceSwStatus == rx[s + 25] && DecodeAt(rx, s).chargeSwStatus == rx[s + 27]
    ensures DecodeAt(rx, s).outputSwStatus == rx[s + 29]
    ensures forall i :: 0 <= i < CellCount ==> DecodeAt(rx, s).batteryVoltages[i] == rx[s + 30 + 2 * i]
    ensures forall j :: 0 <= j < AlarmCount ==> DecodeAt(rx, s).alarms[j] == rx[s + 79 + 2 * j]
  {
  }

  /** Conversely, a record laid out at those offsets is the decode of the frame. */
  lemma LayoutDeterminesDecode(rx: seq<byte>, s: nat, st: BmsState)
    requires s + FrameEnd <= |rx|
    requires st.voltage == rx[s + 6] && st.current == rx[s + 8]
    requires st.batteryLevel == rx[s + 12] && st.maxVolDiff == rx[s + 14]
    requires st.mosTemp == rx[s + 16] && st.batteryTemp == rx[s + 18]
    requires st.sysAlarm == rx[s + 21] && st.avgVoltage == rx[s + 22]
    requires st.balanceSwStatus == rx[s + 25] && st.chargeSwStatus == rx[s + 27]
    requires st.outputSwStatus == rx[s + 29]
    requires |st.batteryVoltages| == CellCount && |st.alarms| == AlarmCount
    requires forall i :: 0 <= i < CellCount ==> st.batteryVoltages[i] == rx[s + 30 + 2 * i]
    requires forall j :: 0 <= j < AlarmCount ==> st.alarms[j] == rx[s + 79 + 2 * j]
    ensures st == DecodeAt(rx, s)
  {
    var d := DecodeAt(rx, s);
    assert st.batteryVoltages == d.batteryVoltages;
    assert st.alarms == d.alarms;
  }

  /** Pairs whose first byte is the value. */
  predicate NumericPair(p: nat) {
    p == VoltagePair || p == CurrentPair || LevelPair <= p <= BatteryTempPair || p == AvgVoltagePair
    || FirstCellPair <= p < FirstCellPair + CellCount
  }

  /** Pairs whose second byte is the value. */
  predicate FlagPair(p: nat) {
    p == SysAlarmPair || BalanceSwPair <= p <= OutputSwPair || FirstAlarmPair <= p < FirstAlarmPair + AlarmCount
  }

  /** Payload offset `k` (0..89) is one the decode reads. */
  predicate UsedOffset(k: nat) {
    (k % 2 == 0 && NumericPair(k / 2)) || (k % 2 == 1 && FlagPair(k / 2))
  }

  /**
   * The decode depends only on the bytes it reads: two frames, at any two
   * offsets, that agree on the used payload bytes decode alike. The reserved
   * pair and the unused half of every pair are ignored.
   */
  lemma DecodeReadsOnlyUsedBytes(a: seq<byte>, s: nat, b: seq<byte>, t: nat)
    requires s + FrameEnd <= |a| && t + FrameEnd <= |b|
    requires forall k :: 0 <= k < 2 * PairCount && UsedOffset(k) ==> a[s + HeaderSize + k] == b[t + HeaderSize + k]
    ensures DecodeAt(a, s) == DecodeAt(b, t)
  {
    assert UsedOffset(2 * VoltagePair) && UsedOffset(2 * CurrentPair) && UsedOffset(2 * LevelPair);
    assert UsedOffset(2 * MaxVolDiffPair) && UsedOffset(2 * MosTempPair) && UsedOffset(2 * BatteryTempPair);
    assert UsedOffset(2 * AvgVoltagePair) && UsedOffset(2 * SysAlarmPair + 1) && UsedOffset(2 * BalanceSwPair + 1);
    assert UsedOffset(2 * ChargeSwPair + 1) && UsedOffset(2 * OutputSwPair + 1);
    forall i | 0 <= i < CellCount
      ensures DecodeAt(a, s).batteryVoltages[i] == DecodeAt(b, t).batteryVoltages[i]
    {
      assert UsedOffset(2 * (FirstCellPair + i));
    }
    forall j | 0 <= j < AlarmCount
      ensures DecodeAt(a, s).alarms[j] == DecodeAt(b, t).alarms[j]
    {
      assert UsedOffset(2 * (FirstAlarmPair + j) + 1);
    }
    assert DecodeAt(a, s).batteryVoltages == DecodeAt(b, t).batteryVoltages;
    assert DecodeAt(a, s).alarms == DecodeAt(b, t).alarms;
  }

  /** The reserved pair is never read: overwriting both of its bytes leaves the decode unchanged. */
  lemma ReservedPairIgnored(rx: seq<byte>, s: nat, lo: byte, hi: byte)
    requires s + FrameEnd <= |rx|
    ensures DecodeAt(rx[s + HeaderSize + 2 * ReservedPair := lo][s + HeaderSize + 2 * ReservedPair + 1 := hi], s)
         == DecodeAt(rx, s)
  {
    var r := rx[s + HeaderSize + 2 * ReservedPair := lo][s + HeaderSize + 2 * ReservedPair + 1 := hi];
    assert !UsedOffset(2 * ReservedPair) && !UsedOffset(2 * ReservedPair + 1);
    DecodeReadsOnlyUsedBytes(r, s, rx, s);
  }

  /** A frame that lies wholly inside the received bytes decodes the same from the read buffer. */
  lemma DecodeReceivedFrame(buf: seq<byte>, len: int, s: nat)
    requires len <= |buf| && s + FrameEnd <= len
    ensures DecodeAt(Received(buf, len), s) == DecodeAt(buf, s)
  {
    DecodeReadsOnlyUsedBytes(Received(buf, len), s, buf, s);
  }

  // ---------------------------------------------------------------------------
  // One receive cycle

  /** What one pass of the receive loop does with a read. */
  datatype Outcome = NoFrame | Truncated(start: nat) | Decoded(start: nat)

  /**
   * The first header the as-written scan accepts is decoded when all 96 bytes
   * of its frame were received, and reported `Truncated` otherwise; either way
   * the scan stops there.
   */
  function Cycle(rx: seq<byte>): (o: Outcome)
    ensures o.Decoded? ==> o.start + FrameEnd <= |rx| && HeaderAt(rx, o.start)
    ensures o.Truncated? ==> o.start + HeaderSize <= |rx| < o.start + FrameEnd && HeaderAt(rx, o.start)
    ensures o.NoFrame? <==> ScanFrom(rx, 0).NotFound?
    ensures !o.NoFrame? ==> o.start == ScanFrom(rx, 0).start
  {
    match ScanFrom(rx, 0)
    case NotFound => NoFrame
    case Found(s) => if s + FrameEnd <= |rx| then Decoded(s) else Truncated(s)
  }
}
