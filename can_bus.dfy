/**
 * The shared medium of `project1/can_bus.py`. During a tick every transmitting
 * node ANDs its bit into `currentBit` (0 is dominant); at the tick boundary
 * `NextBit` either appends the resolved bit to `frame` or, after a tick with
 * no transmission, publishes `frame`.
 *
 * Publishing assigns the list object itself (`lastSendedFrame = self.frame`),
 * so from then on the two names share one list and later appends to `frame`
 * show through `lastSendedFrame`; `shared` records that aliasing.
 */
module Bus {
  import opened Common

  datatype Status = Idle | Active | Wait

  /** Python's `&` on two bits. */
  function And(a: Bit, b: Bit): (r: Bit)
    ensures r == 0 <==> (a == 0 || b == 0)
  {
    if a == 1 && b == 1 then 1 else 0
  }

  /** The resolved value of a tick in which `offered` were driven: recessive 1
      AND-ed with every offered bit. */
  function WiredAnd(offered: seq<Bit>): (r: Bit)
    ensures r == 0 <==> 0 in offered
  {
    if offered == [] then 1
    else
      var init := offered[..|offered| - 1];
      assert offered == init + [offered[|offered| - 1]];
      And(WiredAnd(init), offered[|offered| - 1])
  }

  class CanBus {
    var currentBit: Bit
    var lastSendedBit: Bit
    var frame: seq<Bit>
    var lastSendedFrame: seq<Bit>
    var status: Status
    /** The attribute `clearBus` writes; nothing reads it. */
    var frames: seq<seq<Bit>>
    /** True once `lastSendedFrame` and `frame` are the same list object. */
    var shared: bool
    /** Bits driven since the last tick boundary. */
    ghost var offered: seq<Bit>

    ghost predicate Valid()
      reads this
    {
      currentBit == WiredAnd(offered) &&
      (if shared then lastSendedFrame == frame else lastSendedFrame == [])
    }

    constructor ()
      ensures Valid()
      ensures currentBit == 1 && lastSendedBit == 1
      ensures frame == [] && lastSendedFrame == [] && status == Idle
      ensures offered == [] && !shared
    {
      currentBit := 1;
      lastSendedBit := 1;
      frame := [];
      lastSendedFrame := [];
      status := Idle;
      frames := [];
      shared := false;
      offered := [];
    }

    /** `transmitBit`: wired-AND the offered bit into this tick's value. */
    method TransmitBit(bit: Bit)
      requires Valid()
      modifies this
      ensures Valid()
      ensures offered == old(offered) + [bit]
      ensures currentBit == And(old(currentBit), bit) && status == Active
      ensures lastSendedBit == old(lastSendedBit) && frame == old(frame)
      ensures lastSendedFrame == old(lastSendedFrame) && shared == old(shared)
      ensures frames == old(frames)
    {
      currentBit := And(currentBit, bit);
      status := Active;
      offered := offered + [bit];
    }

    /** `nextBit`: the tick boundary. From WAIT (a tick without transmission)
        publish the frame and go IDLE; otherwise append the resolved bit,
        reset the accumulator to recessive and go to WAIT. */
    method NextBit()
      requires Valid()
      modifies this
      ensures Valid()
      ensures old(status) == Wait ==>
        status == Idle && shared && lastSendedFrame == frame &&
        frame == old(frame) && currentBit == old(currentBit) &&
        lastSendedBit == old(lastSendedBit) && offered == old(offered)
      ensures old(status) != Wait ==>
        frame == old(frame) + [old(currentBit)] && lastSendedBit == old(currentBit) &&
        currentBit == 1 && status == Wait && offered == [] && shared == old(shared)
      ensures old(status) != Wait ==> lastSendedBit == WiredAnd(old(offered))
      ensures frames == old(frames)
    {
      if status == Wait {
        lastSendedFrame := frame;
        shared := true;
        status := Idle;
        return;
      } else {
        frame := frame + [currentBit];
        if shared {
          lastSendedFrame := frame;
        }
      }
      lastSendedBit := currentBit;
      currentBit := 1;
      status := Wait;
      offered := [];
    }

    method GetSendedFrame() returns (r: seq<Bit>)
      requires Valid()
      ensures r == lastSendedFrame
      ensures r == [] || r == frame
    {
      r := lastSendedFrame;
    }

    method GetSendedBit() returns (r: Bit)
      ensures r == lastSendedBit
    {
      r := lastSendedBit;
    }

    method GetStatus() returns (r: Status)
      ensures r == status
    {
      r := status;
    }

    /** `clearBus`: only the accumulator and the unrelated `frames` attribute are
        reset; the resolved bits and the status stay. */
    method ClearBus()
      requires Valid()
      modifies this
      ensures Valid()
      ensures currentBit == 1 && frames == [] && offered == []
      ensures frame == old(frame) && status == old(status)
      ensures lastSendedFrame == old(lastSendedFrame) && lastSendedBit == old(lastSendedBit)
      ensures shared == old(shared)
    {
      currentBit := 1;
      frames := [];
      offered := [];
    }
  }

  /** Two nodes drive 1 and 0, the bus resolves 0 and appends it; a silent
      tick publishes `[0]`. A later tick appends 1 to `frame`, and because the
      published list is that same list, the published frame reads `[0, 1]`
      without any new publication. */
  method PublishedFrameAliases() returns (first: seq<Bit>, later: seq<Bit>)
    ensures first == [0] && later == [0, 1]
  {
    var bus := new CanBus();
    bus.TransmitBit(1);
    bus.TransmitBit(0);
    bus.NextBit();
    bus.NextBit();
    first := bus.GetSendedFrame();
    bus.TransmitBit(1);
    bus.NextBit();
    later := bus.GetSendedFrame();
  }
}
