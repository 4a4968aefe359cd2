/**
 * Fault confinement as `errorStatus` in `project1/ecu.py` and
 * `project1/CanBus_old.py` writes it, and the ECU of `ecu.py`.
 *
 * The thresholds are those of the Bosch CAN 2.0 Part A fault-confinement
 * rules (error passive above 127, bus off above 255), but the branch order
 * makes bus-off unreachable: the second test is the negation of the first,
 * so the third branch never runs.
 */
module Fault {
  datatype Health = ErrorActive | ErrorPassive | BusOff

  /** The status `errorStatus` leaves behind, starting from `current`. */
  function Classify(tec: int, rec: int, current: Health): (r: Health)
    ensures r == ErrorPassive <==> (tec > 127 || rec > 127)
    ensures r == ErrorActive <==> (tec <= 127 && rec <= 127)
    ensures r != BusOff
  {
    if tec > 127 || rec > 127 then ErrorPassive
    else if tec <= 127 && rec <= 127 then ErrorActive
    else if tec > 255 then BusOff
    else current
  }

  /** Even a transmit error counter far above 255 leaves the node error
      passive: the status never depends on the previous one. */
  lemma BusOffUnreachable(tec: int, rec: int, current: Health)
    requires tec > 255
    ensures Classify(tec, rec, current) == ErrorPassive
  {
  }
}

module Node {
  import opened Common
  import opened CanFrame
  import opened Fault
  import opened Bus

  class Ecu {
    const name: string
    const canBus: CanBus
    const frame: Frame
    var tec: int
    var rec: int
    var status: Health
    /** TEC after every increase, in order (the diagnostic history). */
    var tecValues: seq<int>
    var recValues: seq<int>

    /** TEC only ever moves up in steps of 8, each step logged; REC stays 0. */
    ghost predicate Valid()
      reads this
    {
      tec == 8 * |tecValues| &&
      (forall k :: 0 <= k < |tecValues| ==> tecValues[k] == 8 * (k + 1)) &&
      rec == 0 && recValues == [] &&
      status == Classify(tec, rec, status)
    }

    constructor (name: string, canBus: CanBus, frame: Frame)
      ensures Valid()
      ensures this.name == name && this.canBus == canBus && this.frame == frame
      ensures tec == 0 && rec == 0 && status == ErrorActive
      ensures tecValues == [] && recValues == []
    {
      this.name := name;
      this.canBus := canBus;
      this.frame := frame;
      tec := 0;
      rec := 0;
      status := ErrorActive;
      tecValues := [];
      recValues := [];
    }

    /** `errorStatus`. */
    method ErrorStatus()
      modifies this
      ensures status == Classify(tec, rec, old(status))
      ensures tec == old(tec) && rec == old(rec)
      ensures tecValues == old(tecValues) && recValues == old(recValues)
    {
      status := Classify(tec, rec, status);
    }

    /** `TECincrease`: add 8, log the new value, re-evaluate the status. */
    method TecIncrease()
      requires Valid()
      modifies this
      ensures Valid()
      ensures tec == old(tec) + 8 && tecValues == old(tecValues) + [tec]
      ensures status == (if tec > 127 then ErrorPassive else ErrorActive)
      ensures rec == old(rec) && recValues == old(recValues)
    {
      tec := tec + 8;
      tecValues := tecValues + [tec];
      ErrorStatus();
    }

    /** `checkCanBusFrame`: compare the published bits with this node's own
        encoding and count a transmit error when they differ. */
    method CheckCanBusFrame()
      requires Valid() && canBus.Valid()
      modifies this
      ensures Valid()
      ensures canBus.lastSendedFrame != Encode(frame) ==>
        tec == old(tec) + 8 && tecValues == old(tecValues) + [tec] &&
        status == (if tec > 127 then ErrorPassive else ErrorActive)
      ensures canBus.lastSendedFrame == Encode(frame) ==>
        tec == old(tec) && tecValues == old(tecValues) && status == old(status)
      ensures rec == old(rec)
    {
      var canBusFrame := canBus.GetSendedFrame();
      var ecuFrameBits := GetBits(frame);
      if canBusFrame != ecuFrameBits {
        TecIncrease();
      }
    }

    method GetTec() returns (r: int)
      requires Valid()
      ensures r == tec && r >= 0 && r % 8 == 0
    {
      r := tec;
    }

    method GetStatus() returns (r: Health)
      requires Valid()
      ensures r == status && r != BusOff
      ensures r == ErrorPassive <==> tec > 127
    {
      r := status;
    }
  }
}
