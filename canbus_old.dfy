/**
 * The earlier whole-frame simulation of `project1/CanBus_old.py`. Nodes queue
 * whole frames; `porcess` keeps the frames with the lowest identifier and
 * publishes their unstuffed bits AND-ed position by position.
 *
 * The inner loop's guard compares the frame's index `j`, not the bit position,
 * with the frame's length. Frames of equal length therefore take part only
 * while their index is below their length (at least 23), and frames of
 * different lengths can make the loop index past the end of a shorter one;
 * `Porcess` requires that this does not happen.
 */
module LegacyBus {
  import opened Common
  import opened CanFrame
  import opened Fault
  import Bus

  /** The class-level SOF of the old `Frame`; no instance overrides it. */
  const FrameSof: Bit := 0

  // ---------------------------------------------------------------------------
  // Queue operations as functions

  /** `removeInvalidFrames`' comprehension: keep the frames whose SOF is 0.
      Every old-style frame has SOF 0, so nothing is ever removed. */
  function KeepValidSof(fs: seq<Frame>): (r: seq<Frame>)
    ensures r == fs
  {
    if fs == [] then []
    else
      assert fs == [fs[0]] + fs[1..];
      (if FrameSof == 0 then [fs[0]] else []) + KeepValidSof(fs[1..])
  }

  /** `getLowerID`: the smallest identifier in a non-empty queue. */
  function MinId(fs: seq<Frame>): (r: nat)
    requires |fs| > 0
    ensures exists k :: 0 <= k < |fs| && fs[k].id == r
    ensures forall k :: 0 <= k < |fs| ==> r <= fs[k].id
  {
    if |fs| == 1 then fs[0].id
    else
      var rest := MinId(fs[1..]);
      assert forall k :: 1 <= k < |fs| ==> fs[k] == fs[1..][k - 1];
      if fs[0].id <= rest then fs[0].id else rest
  }

  /** `onlyFramesWithID`' comprehension: the frames with identifier `id`, in
      queue order. */
  function WithId(fs: seq<Frame>, id: nat): (r: seq<Frame>)
    ensures |r| <= |fs|
    ensures forall f :: f in r <==> f in fs && f.id == id
  {
    if fs == [] then []
    else (if fs[0].id == id then [fs[0]] else []) + WithId(fs[1..], id)
  }

  /** The comprehension keeps every frame with identifier `id` as often as it
      is queued, and no other. */
  lemma {:induction false} WithIdCounts(fs: seq<Frame>, id: nat)
    ensures forall f :: multiset(WithId(fs, id))[f] == if f.id == id then multiset(fs)[f] else 0
  {
    if fs != [] {
      WithIdCounts(fs[1..], id);
      assert fs == [fs[0]] + fs[1..];
    }
  }

  /** The frames left after arbitration: those with the lowest identifier. */
  function Survivors(fs: seq<Frame>): (r: seq<Frame>)
    requires |fs| > 0
    ensures forall f :: f in r <==> f in fs && f.id == MinId(fs)
  {
    WithId(KeepValidSof(fs), MinId(KeepValidSof(fs)))
  }

  lemma SurvivorsNonEmpty(fs: seq<Frame>)
    requires |fs| > 0
    ensures |Survivors(fs)| > 0
  {
    var k :| 0 <= k < |fs| && fs[k].id == MinId(fs);
    assert fs[k] in Survivors(fs);
  }

  /** The list comprehension `[frame.getBits() for frame in self.frames]`. */
  function BitsOfFrames(fs: seq<Frame>): (r: seq<seq<Bit>>)
    ensures |r| == |fs| && forall j :: 0 <= j < |fs| ==> r[j] == RawBits(fs[j])
  {
    seq(|fs|, j requires 0 <= j < |fs| => RawBits(fs[j]))
  }

  /** `max(len(frame) for frame in framesBits)`. */
  function MaxLen(bits: seq<seq<Bit>>): (r: nat)
    requires |bits| > 0
    ensures exists j :: 0 <= j < |bits| && |bits[j]| == r
    ensures forall j :: 0 <= j < |bits| ==> |bits[j]| <= r
  {
    if |bits| == 1 then |bits[0]|
    else
      var rest := MaxLen(bits[1..]);
      assert forall j :: 1 <= j < |bits| ==> bits[j] == bits[1..][j - 1];
      if |bits[0]| >= rest then |bits[0]| else rest
  }

  /** The frames the inner loop reads (index below own length) are all as long
      as the longest one, so no bit position runs past their end. */
  predicate IndexSafe(bits: seq<seq<Bit>>)
    requires |bits| > 0
  {
    forall j :: 0 <= j < |bits| && j < |bits[j]| ==> |bits[j]| == MaxLen(bits)
  }

  /** Bit `i` after the inner loop has visited frames `0..n`: recessive 1
      AND-ed with bit `i` of each visited frame whose index is below its length. */
  function ColumnAnd(bits: seq<seq<Bit>>, i: nat, n: nat): (r: Bit)
    requires n <= |bits|
    requires forall j :: 0 <= j < n && j < |bits[j]| ==> i < |bits[j]|
    ensures r == 0 <==> exists j :: 0 <= j < n && j < |bits[j]| && bits[j][i] == 0
  {
    if n == 0 then 1
    else Bus.And(ColumnAnd(bits, i, n - 1), if n - 1 < |bits[n - 1]| then bits[n - 1][i] else 1)
  }

  /** The published frame: one resolved bit per position up to the longest. */
  function Combine(bits: seq<seq<Bit>>): (r: seq<Bit>)
    requires |bits| > 0 && IndexSafe(bits)
    ensures |r| == MaxLen(bits)
  {
    seq(MaxLen(bits), i requires 0 <= i < MaxLen(bits) => ColumnAnd(bits, i, |bits|))
  }

  // ---------------------------------------------------------------------------
  // What the published frame means

  /** A published bit is dominant exactly when some frame the loop reads is
      dominant there. */
  lemma CombineDominant(bits: seq<seq<Bit>>, i: nat)
    requires |bits| > 0 && IndexSafe(bits) && i < MaxLen(bits)
    ensures Combine(bits)[i] == 0 <==>
      exists j :: 0 <= j < |bits| && j < |bits[j]| && bits[j][i] == 0
  {
  }

  /** With at most 23 frames of equal length every frame takes part: the
      published bit is the AND of that bit of all of them. */
  lemma AllFramesTakePart(fs: seq<Frame>, i: nat)
    requires 0 < |fs| <= MinLength
    requires forall j :: 0 <= j < |fs| ==> |RawBits(fs[j])| == |RawBits(fs[0])|
    requires i < |RawBits(fs[0])|
    ensures IndexSafe(BitsOfFrames(fs))
    ensures Combine(BitsOfFrames(fs))[i] == 0 <==>
      exists j :: 0 <= j < |fs| && RawBits(fs[j])[i] == 0
  {
    var bits := BitsOfFrames(fs);
    assert forall j :: 0 <= j < |fs| ==> j < |bits[j]|;
    assert MaxLen(bits) == |RawBits(fs[0])|;
    CombineDominant(bits, i);
  }

  /** A lone survivor is published exactly as its own unstuffed bits. */
  lemma SingleFramePublished(f: Frame)
    ensures IndexSafe(BitsOfFrames([f]))
    ensures Combine(BitsOfFrames([f])) == RawBits(f)
  {
    var bits := BitsOfFrames([f]);
    assert forall i :: 0 <= i < |RawBits(f)| ==> Combine(bits)[i] == ColumnAnd(bits, i, 1);
  }

  /** Splitting off the most significant digit. */
  lemma {:induction false} ValueHead(s: seq<Bit>)
    requires |s| >= 1
    ensures Value(s) == s[0] * Pow2(|s| - 1) + Value(s[1..])
  {
    if |s| > 1 {
      var init := s[..|s| - 1];
      ValueHead(init);
      assert s[1..][..|s| - 2] == init[1..];
      assert Pow2(|s| - 1) == 2 * Pow2(|s| - 2);
    }
  }

  /** The first data bit of a frame is the top bit of its first byte. */
  lemma FirstDataBit(f: Frame)
    requires WellFormed(f) && |f.data| >= 1
    ensures |RawBits(f)| > 16 && RawBits(f)[16] == if f.data[0] >= 128 then 1 else 0
  {
    RawBitsLayout(f);
    var byte := Binary(f.data[0], 8);
    BinaryFits(f.data[0], 8);
    assert DataBits(f.data)[..8] == byte;
    ValueHead(byte);
    ValueBound(byte[1..]);
    assert Pow2(7) == 128;
    assert RawBits(f)[16] == RawBits(f)[16..16 + 8 * f.dlc][0];
  }

  /** When frames of equal length outnumber their bits, the frame at index
      `L` (as long as the others, `L` bits) is never read: a dominant bit that
      only it carries is lost and the published bit stays recessive. */
  lemma LateDominantLost(bits: seq<seq<Bit>>, i: nat)
    requires |bits| >= 2
    requires forall j :: 0 <= j < |bits| ==> |bits[j]| == |bits| - 1
    requires i < |bits| - 1
    requires forall j :: 0 <= j < |bits| - 1 ==> bits[j][i] == 1
    ensures IndexSafe(bits) && MaxLen(bits) == |bits| - 1
    ensures Combine(bits)[i] == 1
  {
    assert MaxLen(bits) == |bits| - 1;
  }

  /** With 32 one-byte frames, the last one (index 31, as long as the others:
      31 bits) is not read: when only it has a byte below 128, its dominant
      first data bit is lost and the published bit stays recessive. */
  lemma LateFrameIgnored(fs: seq<Frame>)
    requires |fs| == 32
    requires forall j :: 0 <= j < 32 ==> WellFormed(fs[j]) && |fs[j].data| == 1
    requires forall j :: 0 <= j < 31 ==> fs[j].data[0] >= 128
    requires fs[31].data[0] < 128
    ensures var bits := BitsOfFrames(fs);
      IndexSafe(bits) && MaxLen(bits) == 31 && |bits[31]| == 31 &&
      Combine(bits)[16] == 1 && bits[31][16] == 0
  {
    var bits := BitsOfFrames(fs);
    forall j | 0 <= j < 32 ensures |bits[j]| == 31 && bits[j][16] == (if j < 31 then 1 else 0) {
      RawBitsLayout(fs[j]);
      FirstDataBit(fs[j]);
    }
    LateDominantLost(bits, 16);
  }

  /** The nested loop of `porcess`: for each position up to the longest
      frame, start recessive and AND in that bit of every frame whose index is
      below its own length. */
  method PublishedBits(framesBits: seq<seq<Bit>>) returns (frameSended: seq<Bit>)
    requires |framesBits| > 0 && IndexSafe(framesBits)
    ensures frameSended == Combine(framesBits)
  {
    var maxLength := MaxLen(framesBits);
    frameSended := [];
    for i := 0 to maxLength
      invariant |frameSended| == i
      invariant forall k :: 0 <= k < i ==> frameSended[k] == ColumnAnd(framesBits, k, |framesBits|)
    {
      frameSended := frameSended + [1];
      for j := 0 to |framesBits|
        invariant |frameSended| == i + 1
        invariant forall k :: 0 <= k < i ==> frameSended[k] == ColumnAnd(framesBits, k, |framesBits|)
        invariant frameSended[i] == ColumnAnd(framesBits, i, j)
      {
        if j < |framesBits[j]| {
          frameSended := frameSended[i := Bus.And(frameSended[i], framesBits[j][i])];
        }
      }
    }
  }

  // ---------------------------------------------------------------------------
  // The node

  class LegacyEcu {
    const name: string
    const canBus: LegacyCanBus
    const frame: Frame
    var tec: int
    var rec: int
    var status: Health
    var tecValues: seq<int>
    var recValues: seq<int>

    /** The node is never bus-off and each history ends with its counter. */
    ghost predicate Valid()
      reads this
    {
      status != BusOff &&
      (tecValues != [] ==> tecValues[|tecValues| - 1] == tec) &&
      (recValues != [] ==> recValues[|recValues| - 1] == rec)
    }

    constructor (name: string, canBus: LegacyCanBus, frame: Frame)
      ensures Valid()
      ensures this.name == name && this.canBus == canBus && this.frame == frame
      ensures tec == 0 && rec == 0 && status == ErrorActive
      ensures tecValues == [] && recValues == []
    {
      this.name := name;
      this.canBus := canBus;
      this.frame := frame;
      tec := 0;
      rec := 0;
      status := ErrorActive;
      tecValues := [];
      recValues := [];
    }

    /** `errorStatus`, the same rule as in `ecu.py`. */
    method ErrorStatus()
      modifies this
      ensures status == Classify(tec, rec, old(status))
      ensures tec == old(tec) && rec == old(rec)
      ensures tecValues == old(tecValues) && recValues == old(recValues)
    {
      status := Classify(tec, rec, status);
    }

    method TecIncrease()
      requires Valid()
      modifies this
      ensures Valid()
      ensures tec == old(tec) + 8 && tecValues == old(tecValues) + [tec]
      ensures rec == old(rec) && recValues == old(recValues)
      ensures status == (if tec > 127 || rec > 127 then ErrorPassive else ErrorActive)
    {
      tec := tec + 8;
      tecValues := tecValues + [tec];
      ErrorStatus();
    }

    method RecIncrease()
      requires Valid()
      modifies this
      ensures Valid()
      ensures rec == old(rec) + 1 && recValues == old(recValues) + [rec]
      ensures tec == old(tec) && tecValues == old(tecValues)
      ensures status == (if tec > 127 || rec > 127 then ErrorPassive else ErrorActive)
    {
      rec := rec + 1;
      recValues := recValues + [rec];
      ErrorStatus();
    }

    /** `TECdecrease`: no floor, so the counter can go below zero. */
    method TecDecrease()
      requires Valid()
      modifies this
      ensures Valid()
      ensures tec == old(tec) - 1 && tecValues == old(tecValues) + [tec]
      ensures rec == old(rec) && recValues == old(recValues)
      ensures status == (if tec > 127 || rec > 127 then ErrorPassive else ErrorActive)
    {
      tec := tec - 1;
      tecValues := tecValues + [tec];
      ErrorStatus();
    }

    /** `RECdecrease`: no floor either. */
    method RecDecrease()
      requires Valid()
      modifies this
      ensures Valid()
      ensures rec == old(rec) - 1 && recValues == old(recValues) + [rec]
      ensures tec == old(tec) && tecValues == old(tecValues)
      ensures status == (if tec > 127 || rec > 127 then ErrorPassive else ErrorActive)
    {
      rec := rec - 1;
      recValues := recValues + [rec];
      ErrorStatus();
    }

    method GetTec() returns (r: int)
      ensures r == tec
    {
      r := tec;
    }

    method GetRec() returns (r: int)
      ensures r == rec
    {
      r := rec;
    }

    method GetStatus() returns (r: Health)
      requires Valid()
      ensures r == status && r != BusOff
    {
      r := status;
    }

    /** `sendFrame`: queue this node's frame on the bus. */
    method SendFrame()
      modifies canBus
      ensures canBus.frames == old(canBus.frames) + [frame]
      ensures canBus.lastSendedFrame == old(canBus.lastSendedFrame)
    {
      canBus.SendFrameOnBus(frame);
    }

    /** `checkCanBusFrame`: a published frame other than this node's own
        unstuffed bits (including none at all) counts as a transmit error. */
    method CheckCanBusFrame()
      requires Valid()
      modifies this
      ensures Valid()
      ensures canBus.lastSendedFrame != Some(RawBits(frame)) ==>
        tec == old(tec) + 8 && tecValues == old(tecValues) + [tec] &&
        status == (if tec > 127 || rec > 127 then ErrorPassive else ErrorActive)
      ensures canBus.lastSendedFrame == Some(RawBits(frame)) ==>
        tec == old(tec) && tecValues == old(tecValues) && status == old(status)
      ensures rec == old(rec) && recValues == old(recValues)
    {
      var canBusFrame := canBus.GetSendedFrame();
      var ecuFrameBits := RawBits(frame);
      if canBusFrame != Some(ecuFrameBits) {
        TecIncrease();
      }
    }
  }

  // ---------------------------------------------------------------------------
  // The bus

  class LegacyCanBus {
    /** Frames queued during the current period. */
    var frames: seq<Frame>
    /** The last published bits; `None` until the first publication. */
    var lastSendedFrame: Option<seq<Bit>>

    constructor ()
      ensures frames == [] && lastSendedFrame == None
    {
      frames := [];
      lastSendedFrame := None;
    }

    /** `sendFrameOnBus`: append exactly one frame to the queue. */
    method SendFrameOnBus(frame: Frame)
      modifies this
      ensures frames == old(frames) + [frame]
      ensures lastSendedFrame == old(lastSendedFrame)
    {
      frames := frames + [frame];
    }

    method RemoveInvalidFrames()
      modifies this
      ensures frames == old(frames)
      ensures lastSendedFrame == old(lastSendedFrame)
    {
      frames := KeepValidSof(frames);
    }

    method GetLowerID() returns (r: nat)
      requires |frames| > 0
      ensures r == MinId(frames)
      ensures exists k :: 0 <= k < |frames| && frames[k].id == r
      ensures forall k :: 0 <= k < |frames| ==> r <= frames[k].id
    {
      r := MinId(frames);
    }

    method OnlyFramesWithID(id: nat)
      modifies this
      ensures frames == WithId(old(frames), id)
      ensures lastSendedFrame == old(lastSendedFrame)
    {
      frames := WithId(frames, id);
    }

    /** `porcess`: arbitrate the queued frames and publish the survivors'
        bits combined. */
    method Porcess()
      requires frames != [] ==> IndexSafe(BitsOfFrames(Survivors(frames)))
      modifies this
      ensures old(frames) == [] ==> frames == [] && lastSendedFrame == old(lastSendedFrame)
      ensures old(frames) != [] ==>
        frames == Survivors(old(frames)) &&
        lastSendedFrame == Some(Combine(BitsOfFrames(frames)))
    {
      if |frames| == 0 {
        return;
      }
      ghost var queued := frames;
      SurvivorsNonEmpty(queued);
      RemoveInvalidFrames();
      assert frames == queued;
      var lowerID := GetLowerID();
      assert lowerID == MinId(KeepValidSof(queued));
      OnlyFramesWithID(lowerID);
      assert frames == Survivors(queued);
      var framesBits := BitsOfFrames(frames);
      var frameSended := PublishedBits(framesBits);
      lastSendedFrame := Some(frameSended);
    }

    method GetSendedFrame() returns (r: Option<seq<Bit>>)
      ensures r == lastSendedFrame
    {
      r := lastSendedFrame;
    }

    /** `clearBus`: empty the queue. */
    method ClearBus()
      modifies this
      ensures frames == [] && lastSendedFrame == old(lastSendedFrame)
    {
      frames := [];
    }
  }
}
