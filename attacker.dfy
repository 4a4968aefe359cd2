/**
 * The decision logic of the bus-off attack in `project1/main.py`, taken out of
 * its threads: the attacker's inference of the victim's period, the attack
 * frame, the transmit/retransmit schedule of a node, and `randomFrame`.
 *
 * What the threads would obtain from the bus (the published bits, the frame
 * counter, the outcome of a transmission, the node's status after it) and the
 * random draws are inputs.
 */
module Attack {
  import opened Common
  import opened CanFrame
  import opened Fault

  // ---------------------------------------------------------------------------
  // Period inference (`attacker`)

  /** One turn of the attacker's listening loop: the bits the bus published
      and the bus frame counter at that moment. */
  datatype Observation = Observation(published: seq<Bit>, count: int)

  /** The victim's frame, the counter when it was first seen, and the period. */
  datatype Inference = Inference(victim: Frame, baseline: int, period: int)

  /** The first observation whose published bits decode. */
  function FirstDecoded(obs: seq<Observation>): (r: Option<nat>)
    ensures r.Some? ==> r.value < |obs| && FromBits(obs[r.value].published).Some?
    ensures r.Some? ==> forall k :: 0 <= k < r.value ==> FromBits(obs[k].published).None?
    ensures r.None? ==> forall k :: 0 <= k < |obs| ==> FromBits(obs[k].published).None?
  {
    if obs == [] then None
    else if FromBits(obs[0].published).Some? then Some(0)
    else
      var rest := FirstDecoded(obs[1..]);
      assert forall k :: 1 <= k < |obs| ==> obs[k] == obs[1..][k - 1];
      if rest.None? then None else Some(rest.value + 1)
  }

  /** The first observation that decodes is the one `FirstDecoded` names. */
  lemma FirstDecodedAt(obs: seq<Observation>, i: nat)
    requires i < |obs| && FromBits(obs[i].published).Some?
    requires forall k :: 0 <= k < i ==> FromBits(obs[k].published).None?
    ensures FirstDecoded(obs) == Some(i)
  {
    var r := FirstDecoded(obs);
    var found := FromBits(obs[i].published);
    assert r.None? ==> found.None?;
    assert r.Some? ==> r.value <= i;
    assert r.Some? ==> r.value >= i;
  }

  /** Observation `k` sights the baseline frame of observation `b` again, at a
      strictly larger counter. */
  predicate Resighted(obs: seq<Observation>, b: nat, k: nat)
    requires b < |obs| && k < |obs|
    ensures Resighted(obs, b, k) ==>
      FromBits(obs[b].published).Some? && obs[k].count - obs[b].count >= 1
  {
    b < k && obs[b].count < obs[k].count &&
    FromBits(obs[k].published).Some? && FromBits(obs[k].published) == FromBits(obs[b].published)
  }

  /** `attacker`'s listening loop over a finite run of observations. The first
      decoded frame becomes the baseline; the loop stops at the first later
      observation that decodes to an equal frame at a larger counter. `None`
      means the run ends before that happens. */
  method InferPeriod(obs: seq<Observation>) returns (r: Option<Inference>)
    ensures FirstDecoded(obs).None? ==> r.None?
    ensures FirstDecoded(obs).Some? ==>
      var b := FirstDecoded(obs).value;
      (r.None? <==> forall k :: 0 <= k < |obs| ==> !Resighted(obs, b, k)) &&
      (r.Some? ==>
        FromBits(obs[b].published) == Some(r.value.victim) &&
        r.value.baseline == obs[b].count && r.value.period >= 1 &&
        exists k :: 0 <= k < |obs| && Resighted(obs, b, k) &&
          r.value.period == obs[k].count - obs[b].count &&
          forall j :: 0 <= j < k ==> !Resighted(obs, b, j))
  {
    var victimFrameNumber: Option<int> := None;
    var victimFrame: Option<Frame> := None;
    ghost var b: nat := 0;
    var i := 0;
    while i < |obs|
      invariant 0 <= i <= |obs|
      invariant victimFrame.None? <==> victimFrameNumber.None?
      invariant victimFrame.None? ==> forall k :: 0 <= k < i ==> FromBits(obs[k].published).None?
      invariant victimFrame.Some? ==> FirstDecoded(obs) == Some(b) && b < i
      invariant victimFrame.Some? ==>
        FromBits(obs[b].published) == victimFrame && victimFrameNumber == Some(obs[b].count)
      invariant victimFrame.Some? ==> forall k :: 0 <= k < i ==> !Resighted(obs, b, k)
    {
      var o := obs[i];
      var frame := FromBits(o.published);
      if victimFrame.None? && frame.Some? {
        victimFrameNumber := Some(o.count);
        victimFrame := frame;
        frame := None;
        b := i;
        FirstDecodedAt(obs, i);
      }
      if victimFrameNumber.Some? && victimFrameNumber.value < o.count &&
         FrameEquals(victimFrame.value, frame)
      {
        r := Some(Inference(victimFrame.value, victimFrameNumber.value, o.count - victimFrameNumber.value));
        assert Resighted(obs, b, i);
        return;
      }
      i := i + 1;
    }
    r := None;
  }

  /** The attacker's frame: the victim's identifier, no data. */
  function AttackerFrame(victim: Frame): (f: Frame)
    ensures WellFormed(victim) ==> WellFormed(f)
    ensures f.id == victim.id && f.dlc == 0 && f.data == []
  {
    Frame(victim.id, 0, [])
  }

  lemma {:induction false} ValueOfZeros(s: seq<Bit>)
    requires forall k :: 0 <= k < |s| ==> s[k] == 0
    ensures Value(s) == 0
  {
    if s != [] {
      ValueOfZeros(s[..|s| - 1]);
    }
  }

  /** A bit list with a non-zero value holds a 1. */
  lemma NonZeroHasOne(s: seq<Bit>)
    requires Value(s) != 0
    ensures exists p :: 0 <= p < |s| && s[p] == 1
  {
    if forall p :: 0 <= p < |s| ==> s[p] == 0 {
      ValueOfZeros(s);
      assert false;
    }
  }

  /** Why the attack works: up to the identifier the attacker's unstuffed bits
      are the victim's, so both win arbitration together; in the DLC field the
      attacker has only dominant bits where the victim, carrying data, has a
      recessive one, and the wired AND shows the attacker's bit. */
  lemma AttackerDominatesDlc(victim: Frame)
    requires WellFormed(victim) && victim.dlc >= 1
    ensures |RawBits(AttackerFrame(victim))| == MinLength && |RawBits(victim)| > MinLength
    ensures RawBits(AttackerFrame(victim))[..12] == RawBits(victim)[..12]
    ensures exists p ::
      12 <= p < 16 && RawBits(AttackerFrame(victim))[p] == 0 && RawBits(victim)[p] == 1
  {
    var a := AttackerFrame(victim);
    var ra, rv := RawBits(a), RawBits(victim);
    assert |ra| == MinLength && |rv| > MinLength by {
      RawBitsLayout(a);
      RawBitsLayout(victim);
    }
    assert ra[..12] == rv[..12] by {
      RawBitsHeader(a);
      RawBitsHeader(victim);
    }
    var dz := rv[12..16];
    assert Value(dz) == victim.dlc by {
      RawBitsLayout(victim);
    }
    NonZeroHasOne(dz);
    var q :| 0 <= q < 4 && dz[q] == 1;
    assert ra[12 + q] == 0 by {
      RawBitsHeader(a);
      assert Binary(0, 4) == [0, 0, 0, 0];
    }
    assert rv[12 + q] == dz[q];
  }

  // ---------------------------------------------------------------------------
  // Node schedule (`ecuThread`)

  /** What a node waits for before an attempt: a given frame count, or the
      next multiple of its period. */
  datatype Wait = AtCount(n: int) | AtMultipleOf(period: int)

  /** The inputs of one turn of the node loop. `stopRaised`: another thread
      has set the stop event by the loop test; `slot`: the bus counter read
      after waiting; `completed`: the transmission reported completion;
      `status`: the node's status afterwards. */
  datatype Attempt = Attempt(stopRaised: bool, slot: int, completed: bool, status: Health)

  /** The wait before attempt `k`: the period for the first attempt and after
      a completed one; the count right after the previous slot after any other
      outcome, arbitration loss included. */
  function WaitBefore(period: int, attempts: seq<Attempt>, k: nat): (w: Wait)
    requires k < |attempts|
    ensures w.AtMultipleOf? <==> k == 0 || attempts[k - 1].completed
    ensures w.AtCount? ==> w.n == attempts[k - 1].slot + 1
    ensures w.AtMultipleOf? ==> w.period == period
  {
    if k == 0 || attempts[k - 1].completed then AtMultipleOf(period)
    else AtCount(attempts[k - 1].slot + 1)
  }

  /** The loop of `ecuThread` over a finite run of inputs: it returns the
      waits it performed and whether the stop event is set when it ends. */
  method NodeLoop(period: int, attempts: seq<Attempt>) returns (waits: seq<Wait>, stopSet: bool)
    ensures |waits| <= |attempts|
    ensures forall k :: 0 <= k < |waits| ==> waits[k] == WaitBefore(period, attempts, k)
    // every attempt made passed the loop test
    ensures forall k :: 0 <= k < |waits| ==> !attempts[k].stopRaised
    ensures forall k :: 0 <= k < |waits| - 1 ==> attempts[k].status != BusOff
    // the loop ends only on the stop event, bus-off, or the end of the run
    ensures |waits| == |attempts| || attempts[|waits|].stopRaised ||
      (|waits| > 0 && attempts[|waits| - 1].status == BusOff)
    // reaching bus-off raises the stop event
    ensures |waits| > 0 && attempts[|waits| - 1].status == BusOff ==> stopSet
    ensures stopSet ==>
      (|waits| > 0 && attempts[|waits| - 1].status == BusOff) ||
      (|waits| < |attempts| && attempts[|waits|].stopRaised)
  {
    var retransmission := false;
    var lastFrameNumber := 0;
    var status := ErrorActive;
    stopSet := false;
    waits := [];
    var k := 0;
    while k < |attempts| && !(stopSet || attempts[k].stopRaised) && status != BusOff
      invariant 0 <= k <= |attempts| && |waits| == k
      invariant forall j :: 0 <= j < k ==> waits[j] == WaitBefore(period, attempts, j)
      invariant forall j :: 0 <= j < k ==> !attempts[j].stopRaised
      invariant forall j :: 0 <= j < k - 1 ==> attempts[j].status != BusOff
      invariant k > 0 ==>
        (status == attempts[k - 1].status && lastFrameNumber == attempts[k - 1].slot &&
         retransmission == !attempts[k - 1].completed)
      invariant k == 0 ==> status == ErrorActive && !retransmission
      invariant stopSet <==> status == BusOff
    {
      var a := attempts[k];
      if retransmission {
        waits := waits + [AtCount(lastFrameNumber + 1)];
      } else {
        waits := waits + [AtMultipleOf(period)];
      }
      retransmission := false;
      lastFrameNumber := a.slot;
      status := a.status;
      if status == BusOff {
        stopSet := true;
      }
      if !a.completed {
        retransmission := true;
      }
      k := k + 1;
    }
    if k < |attempts| && attempts[k].stopRaised {
      stopSet := true;
    }
  }

  // ---------------------------------------------------------------------------
  // `randomFrame`

  /** `randomFrame` with its draws as parameters: the identifier, the DLC and
      the candidate bytes, each in the range `randint` draws from. */
  method RandomFrame(id: int, dlc: int, draws: seq<int>) returns (f: Frame)
    requires 0 <= id <= 2047 && 1 <= dlc <= 4 && |draws| >= dlc
    requires forall k :: 0 <= k < |draws| ==> 0 <= draws[k] <= 255
    ensures WellFormed(f) && 1 <= f.dlc <= 4
    ensures f.id == id && f.dlc == dlc && f.data == draws[..dlc]
    ensures FromBits(Encode(f)) == Some(f)
  {
    var data: seq<nat> := [];
    for i := 0 to dlc
      invariant data == draws[..i]
    {
      data := data + [draws[i]];
    }
    f := Frame(id, dlc, data);
    RoundTrip(f);
  }
}
