/**
 * The global `jkbms` record and the receive loop body of `rs485_read_task`
 * that scans one read for a header and decodes the first accepted frame into
 * the record in place.
 */
module Receiver {
  import opened Bytes
  import opened Telemetry

  /** `struct jkbms_t`, updated field by field by the decode. */
  class Jkbms {
    /** Hundredths of a volt; the source stores this divided by 100 as a float. */
    var voltage: u16
    /** Tenths of an amp; the source stores this divided by 10 as a float. */
    var current: i16
    var batteryLevel: u16
    var maxVolDiff: u16
    var mosTemp: i16
    var batteryTemp: i16
    var avgVoltage: u16
    var balanceSwStatus: byte
    var chargeSwStatus: byte
    var outputSwStatus: byte
    /** `battery_voltages[24]` */
    var batteryVoltages: array<u16>
    var sysAlarm: byte
    var overDischargeAlarm: byte
    var overChargeAlarm: byte
    var overCurrentAlarm: byte
    var mosHeatAlarm: byte
    var batteryHeatAlarm: byte
    var shortCurrentAlarm: byte
    var communicateAlarm: byte
    var equalizingLineAlarm: byte
    var batteryCountAlarm: byte

    ghost predicate Valid()
      reads this
    {
      batteryVoltages.Length == CellCount
    }

    /** The record's current value. */
    function Snapshot(): (st: BmsState)
      reads this, batteryVoltages
      requires Valid()
      ensures |st.batteryVoltages| == CellCount && |st.alarms| == AlarmCount
    {
      BmsState(voltage, current, batteryLevel, maxVolDiff, mosTemp, batteryTemp, avgVoltage,
               balanceSwStatus, chargeSwStatus, outputSwStatus, batteryVoltages[..], sysAlarm,
               [overDischargeAlarm, overChargeAlarm, overCurrentAlarm, mosHeatAlarm, batteryHeatAlarm,
                shortCurrentAlarm, communicateAlarm, equalizingLineAlarm, batteryCountAlarm])
    }

    /** The snapshot lists the nine alarm fields in the order of their pairs on the wire. */
    lemma AlarmOrder()
      requires Valid()
      ensures Snapshot().alarms[OverDischarge] == overDischargeAlarm && Snapshot().alarms[OverCharge] == overChargeAlarm
      ensures Snapshot().alarms[OverCurrent] == overCurrentAlarm && Snapshot().alarms[MosHeat] == mosHeatAlarm
      ensures Snapshot().alarms[BatteryHeat] == batteryHeatAlarm && Snapshot().alarms[ShortCurrent] == shortCurrentAlarm
      ensures Snapshot().alarms[Communicate] == communicateAlarm && Snapshot().alarms[EqualizingLine] == equalizingLineAlarm
      ensures Snapshot().alarms[BatteryCount] == batteryCountAlarm
    {
    }

    /** `static struct jkbms_t jkbms;` starts zeroed. */
    constructor ()
      ensures Valid() && fresh(batteryVoltages)
      ensures Snapshot() == ZeroState
    {
      voltage, current, batteryLevel, maxVolDiff := 0, 0, 0, 0;
      mosTemp, batteryTemp, avgVoltage := 0, 0, 0;
      balanceSwStatus, chargeSwStatus, outputSwStatus := 0, 0, 0;
      batteryVoltages := new u16[CellCount](_ => 0);
      sysAlarm := 0;
      overDischargeAlarm, overChargeAlarm, overCurrentAlarm := 0, 0, 0;
      mosHeatAlarm, batteryHeatAlarm, shortCurrentAlarm := 0, 0, 0;
      communicateAlarm, equalizingLineAlarm, batteryCountAlarm := 0, 0, 0;
      new;
      assert batteryVoltages[..] == ZeroState.batteryVoltages;
    }

    /** Pairs 0..6: voltage, current, the skipped reserved pair, level, cell spread and temperatures. */
    method DecodeReadings(frame: seq<byte>, index: nat) returns (next: nat)
      requires index + 2 * SysAlarmPair <= |frame|
      modifies this`voltage, this`current, this`batteryLevel, this`maxVolDiff, this`mosTemp, this`batteryTemp
      ensures next == index + 2 * SysAlarmPair
      ensures voltage == frame[index] && current == frame[index + 2]
      ensures batteryLevel == frame[index + 6] && maxVolDiff == frame[index + 8]
      ensures mosTemp == frame[index + 10] && batteryTemp == frame[index + 12]
    {
      var i := index;
      voltage := frame[i];
      i := i + 2;
      current := frame[i];
      i := i + 2;
      // reserved pair
      i := i + 2;
      batteryLevel := frame[i];
      i := i + 2;
      maxVolDiff := frame[i];
      i := i + 2;
      mosTemp := frame[i];
      i := i + 2;
      batteryTemp := frame[i];
      i := i + 2;
      next := i;
    }

    /** Pairs 7..11: system alarm, average cell voltage and the three switch states. */
    method DecodeStatus(frame: seq<byte>, index: nat) returns (next: nat)
      requires index + 2 * (FirstCellPair - SysAlarmPair) <= |frame|
      modifies this`sysAlarm, this`avgVoltage, this`balanceSwStatus, this`chargeSwStatus, this`outputSwStatus
      ensures next == index + 2 * (FirstCellPair - SysAlarmPair)
      ensures sysAlarm == frame[index + 1] && avgVoltage == frame[index + 2]
      ensures balanceSwStatus == frame[index + 5] && chargeSwStatus == frame[index + 7]
      ensures outputSwStatus == frame[index + 9]
    {
      var i := index;
      sysAlarm := frame[i + 1];
      i := i + 2;
      avgVoltage := frame[i];
      i := i + 2;
      balanceSwStatus := frame[i + 1];
      i := i + 2;
      chargeSwStatus := frame[i + 1];
      i := i + 2;
      outputSwStatus := frame[i + 1];
      i := i + 2;
      next := i;
    }

    /** Pairs 12..35: the `for` loop filling `battery_voltages` from the first byte of each pair. */
    method DecodeCells(frame: seq<byte>, index: nat) returns (next: nat)
      requires Valid()
      requires index + 2 * CellCount <= |frame|
      modifies batteryVoltages
      ensures next == index + 2 * CellCount
      ensures forall k :: 0 <= k < CellCount ==> batteryVoltages[k] == frame[index + 2 * k]
    {
      next := index;
      for c := 0 to CellCount
        invariant next == index + 2 * c
        invariant forall k :: 0 <= k < c ==> batteryVoltages[k] == frame[index + 2 * k]
      {
        batteryVoltages[c] := frame[next];
        next := next + 2;
      }
    }

    /** Pairs 36..44: the nine alarms, each the second byte of its pair. */
    method DecodeAlarms(frame: seq<byte>, index: nat) returns (next: nat)
      requires index + 2 * AlarmCount <= |frame|
      modifies this`overDischargeAlarm, this`overChargeAlarm, this`overCurrentAlarm, this`mosHeatAlarm
      modifies this`batteryHeatAlarm, this`shortCurrentAlarm, this`communicateAlarm
      modifies this`equalizingLineAlarm, this`batteryCountAlarm
      ensures next == index + 2 * AlarmCount
      ensures overDischargeAlarm == frame[index + 1] && overChargeAlarm == frame[index + 3]
      ensures overCurrentAlarm == frame[index + 5] && mosHeatAlarm == frame[index + 7]
      ensures batteryHeatAlarm == frame[index + 9] && shortCurrentAlarm == frame[index + 11]
      ensures communicateAlarm == frame[index + 13] && equalizingLineAlarm == frame[index + 15]
      ensures batteryCountAlarm == frame[index + 17]
    {
      var i := index;
      overDischargeAlarm := frame[i + 1];
      i := i + 2;
      overChargeAlarm := frame[i + 1];
      i := i + 2;
      overCurrentAlarm := frame[i + 1];
      i := i + 2;
      mosHeatAlarm := frame[i + 1];
      i := i + 2;
      batteryHeatAlarm := frame[i + 1];
      i := i + 2;
      shortCurrentAlarm := frame[i + 1];
      i := i + 2;
      communicateAlarm := frame[i + 1];
      i := i + 2;
      equalizingLineAlarm := frame[i + 1];
      i := i + 2;
      batteryCountAlarm := frame[i + 1];
      i := i + 2;
      next := i;
    }

    /**
     * The positional walk over the 45 pairs that follow a header, starting at
     * `index` (just past the header) and returning the index past the last pair.
     * The buffer does not change while it is decoded, so the walk reads it as a value.
     */
    method Decode(frame: seq<byte>, index: nat) returns (next: nat)
      requires Valid()
      requires HeaderSize <= index && index + 2 * PairCount <= |frame|
      modifies this`voltage, this`current, this`batteryLevel, this`maxVolDiff, this`mosTemp, this`batteryTemp
      modifies this`sysAlarm, this`avgVoltage, this`balanceSwStatus, this`chargeSwStatus, this`outputSwStatus
      modifies this`overDischargeAlarm, this`overChargeAlarm, this`overCurrentAlarm, this`mosHeatAlarm
      modifies this`batteryHeatAlarm, this`shortCurrentAlarm, this`communicateAlarm
      modifies this`equalizingLineAlarm, this`batteryCountAlarm, batteryVoltages
      ensures next == index + 2 * PairCount
      ensures Snapshot() == DecodeAt(frame, index - HeaderSize)
    {
      ghost var s := index - HeaderSize;
      next := DecodeReadings(frame, index);
      next := DecodeStatus(frame, next);
      next := DecodeCells(frame, next);
      ghost var cells := batteryVoltages[..];
      assert cells == CellVoltages(frame, s);
      next := DecodeAlarms(frame, next);
      ghost var st := Snapshot();
      assert st.batteryVoltages == cells;
      assert st.alarms == AlarmBytes(frame, s);
      assert st.voltage == FirstByte(frame, s, VoltagePair);
    }

    /**
     * One evaluation of the header condition at `index`: the `&&` chain reads
     * one byte per comparison it evaluates, post-incrementing `index` each time,
     * and stops at the first failing comparison.
     */
    method ProbeHeader(data: array<byte>, len: int, index: u16) returns (ok: bool, next: u16)
      requires len <= data.Length <= BufSize
      requires index as int + HeaderSize <= len
      ensures ok == HeaderAt(Received(data[..], len), index as nat)
      ensures next as int == index as int + Evaluated(Received(data[..], len), index as nat)
    {
      ghost var rx := Received(data[..], len);
      assert rx[index..index as int + HeaderSize] == data[index..index as int + HeaderSize];
      next := index;
      assert next as int < len;
      ok := data[next] != RejectedFirstByte;
      next := next + 1;
      if ok {
        assert next as int < len;
        ok := data[next] == SecondHeaderByte;
        next := next + 1;
      }
      if ok {
        assert next as int < len;
        var dataLen := data[next];
        ok := dataLen >= MinDeclaredLength;
        next := next + 1;
      }
      if ok {
        assert next as int < len;
        ok := data[next] == CommandCode;
        next := next + 1;
      }
      if ok {
        assert next as int < len;
        ok := data[next] == SubTypeHigh;
        next := next + 1;
      }
      if ok {
        assert next as int < len;
        ok := data[next] == SubTypeLow;
        next := next + 1;
      }
    }

    /**
     * One pass of the receive loop over the `len` bytes read into `data`:
     * probe for a header, advancing `index` by the comparisons evaluated, stop
     * at the first accepted header and decode its frame. A frame whose 96 bytes
     * were not all received is reported `Truncated` and not decoded.
     */
    method ScanAndDecode(data: array<byte>, len: int) returns (outcome: Outcome, index: u16)
      requires Valid()
      requires data.Length == BufSize && len <= data.Length
      modifies this, batteryVoltages
      ensures Valid() && batteryVoltages == old(batteryVoltages)
      ensures outcome == Cycle(Received(data[..], len))
      ensures outcome.Decoded? ==> Snapshot() == DecodeAt(Received(data[..], len), outcome.start)
      ensures outcome.Decoded? ==> index as int == outcome.start + FrameEnd
      ensures !outcome.Decoded? ==> Snapshot() == old(Snapshot())
    {
      ghost var rx := Received(data[..], len);
      index := 0;
      var start: u16 := 0;
      var found := false;
      while index as int < len - 5
        invariant index as int <= |rx|
        invariant ScanFrom(rx, index as nat) == ScanFrom(rx, 0)
        decreases len - index as int
        modifies {}
      {
        start := index;
        found, index := ProbeHeader(data, len, index);
        if found {
          break;
        }
        MismatchAdvances(rx, start as nat);
      }
      if !found {
        outcome := NoFrame;
      } else if index as int + 2 * PairCount <= len {
        // the source decodes here and then leaves the loop with `break`
        var next := Decode(data[..], index as nat);
        DecodeReceivedFrame(data[..], len, start as nat);
        index := next as u16;
        outcome := Decoded(start as nat);
      } else {
        outcome := Truncated(start as nat);
      }
    }
  }
}
