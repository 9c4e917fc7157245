/**
 The transmit side of the Linux driver: the queue in front of the ring, the flush
 with its two tries, and the stop and start of the net queues.  Each call runs under
 the lock of the queue; only the firmware moves between the two tries of a flush.
 */
module HostTx {
  import opened Words
  import opened RingLayout
  import opened RingDirection
  import opened TwoHarts
  import opened ShmRing

  datatype Status = Accepted | Invalid | NoDevice | TooLong | NoMemory | Busy

  class Transmitter {
    const ring: ShmRing
    var queue: seq<Bytes>
    var running: bool
    var quiesced: bool
    var paused: bool
    var workPending: bool
    var toFirmware: bool   // the doorbell to the firmware
    var toHost: bool       // the doorbell from the firmware

    ghost predicate Valid()
      reads this, ring, ring.data
    {
      && ring.Valid() && ring.link == TO_FW
      && |queue| <= TX_QUEUE_MAX
      && (forall f :: f in queue ==> FrameOk(TO_FW, f))
      && (|queue| >= TX_PAUSE ==> paused)
      && (paused && |queue| <= TX_RESUME && running && !quiesced ==> workPending)
    }

    constructor (ring: ShmRing, running: bool)
      requires ring.Valid() && ring.link == TO_FW
      ensures Valid() && this.ring == ring && this.running == running && queue == [] && !quiesced && !paused
    {
      this.ring, this.running := ring, running;
      queue, quiesced, paused, workPending := [], false, false, false;
      toFirmware, toHost := false, false;
    }

    /** The firmware reads `n` frames, or all that there are. */
    method FirmwareTakes(n: nat)
      requires ring.Valid() && ring.link == TO_FW
      modifies ring`tail, ring`wait, ring`log, `toHost
      ensures ring.Valid() && ring.log.pushed == old(ring.log).pushed
      ensures toHost || ring.wait == old(ring.wait)
      ensures old(toHost) ==> toHost
    {
      var k := 0;
      while k < n
        invariant ring.Valid() && ring.log.pushed == old(ring.log).pushed
        invariant toHost || ring.wait == old(ring.wait)
        invariant old(toHost) ==> toHost
      {
        RoomIsFree(ring.link, Ring(ring.data[..], ring.head, ring.tail), ring.log);
        hide Counters, History;
        if ring.head == ring.tail {
          return;
        }
        var frame, bad, rings := ring.Take(true);
        toHost := toHost || rings;
        k := k + 1;
      }
    }

    /** The two tries for one frame, with WAIT set before the second; the firmware reads up to
        `n` frames between them. */
    method PushTwice(frame: Bytes, n: nat) returns (ok: bool, empty: bool)
      requires ring.Valid() && ring.link == TO_FW && FrameOk(TO_FW, frame)
      modifies `toHost, ring, ring.data
      ensures ring.Valid()
      ensures ring.log.pushed == old(ring.log).pushed + if ok then [frame] else []
      ensures ok && old(ring.log).flight == [] ==> empty
      ensures !ok ==> (ring.wait || toHost) && RecordLen(|frame|) > TO_FW_SIZE - Total(ring.log.flight)
      ensures old(toHost) ==> toHost
    {
      assert frame + [] == frame;
      hide Counters, History, RecordLen, Total;
      ok, empty := ring.Push(frame, [], true);
      if !ok {
        EmptyFits(ring, frame);
        ring.wait := true;
        FirmwareTakes(n);
        ok, empty := ring.Push(frame, [], true);
      }
    }

    /** esp_shm_tx_flush().  `between[k]`: the frames that the firmware reads between the two
        tries for the k-th frame.  The frames go out from the front of the queue; what stays
        does not fit, and then WAIT is set or the firmware has rung. */
    method Flush(between: seq<nat>)
      requires ring.Valid() && ring.link == TO_FW && forall f :: f in queue ==> FrameOk(TO_FW, f)
      modifies `queue, `paused, `toFirmware, `toHost, ring, ring.data
      ensures ring.Valid() && |queue| <= |old(queue)| && forall f :: f in queue ==> FrameOk(TO_FW, f)
      ensures ring.log.pushed + queue == old(ring.log).pushed + old(queue)
      ensures !running || quiesced ==> queue == old(queue) && paused == old(paused) && ring.log == old(ring.log)
                                       && toFirmware == old(toFirmware)
      ensures var n := |old(queue)| - |queue|;
              queue == old(queue)[n..] && ring.log.pushed == old(ring.log).pushed + old(queue)[..n]
      ensures running && !quiesced ==> paused == (old(paused) && |queue| > TX_RESUME)
      ensures running && !quiesced && queue != [] ==>
                (ring.wait || toHost) && RecordLen(|queue[0]|) > TO_FW_SIZE - Total(ring.log.flight)
      ensures old(ring.log).flight == [] && queue != old(queue) ==> toFirmware
      ensures |queue| == |old(queue)| ==> toFirmware == old(toFirmware)
    {
      hide Counters, History, RecordLen, Total, FrameOk;
      if !running || quiesced {
        return;
      }
      var kick := false;
      var k := 0;
      while queue != []
        invariant paused == old(paused) && toFirmware == old(toFirmware) && (k == 0 ==> !kick)
        invariant ring.Valid() && k <= |old(queue)| && queue == old(queue)[k..]
        invariant ring.log.pushed == old(ring.log).pushed + old(queue)[..k]
        invariant old(ring.log).flight == [] ==> if k > 0 then kick else ring.log.flight == []
      {
        assert queue[0] in old(queue);
        var ok, empty := PushTwice(queue[0], if k < |between| then between[k] else 0);
        if !ok {
          break;
        }
        kick := kick || empty;
        queue := queue[1..];
        k := k + 1;
      }
      SplitPushed(old(ring.log).pushed, old(queue), k);
      if |queue| <= TX_RESUME {
        paused := false;
      }
      if kick {
        toFirmware := true;
      }
    }

    /** esp_shm_write().  There can be no frame, or no device (`device`), and the copy of a
        fragmented frame can fail (`linear`). */
    method Write(skb: Option<Bytes>, device: bool, limit: nat, linear: bool, between: seq<nat>) returns (status: Status)
      requires Valid() && limit <= TO_FW_FRAME_MAX && (skb.Some? ==> HEADER_LEN <= |skb.value|)
      modifies `queue, `paused, `toFirmware, `toHost, ring, ring.data
      ensures Valid()
      ensures status == if skb.None? then Invalid else if !device then NoDevice else if |skb.value| > limit then TooLong
                        else if !linear then NoMemory else if !running || quiesced then NoDevice
                        else if |old(queue)| >= TX_QUEUE_MAX then Busy else Accepted
      ensures status != Accepted ==> queue == old(queue) && paused == old(paused) && ring.log == old(ring.log)
      ensures status == Accepted ==>
                ring.log.pushed + queue == (old(ring.log).pushed + old(queue)) + [skb.value]
                && paused == (|queue| >= TX_PAUSE || (old(paused) && |queue| > TX_RESUME))
    {
      hide Counters, History, RecordLen, Total;
      if skb.None? {
        return Invalid;
      }
      if !device {
        return NoDevice;
      }
      if |skb.value| > limit {
        return TooLong;
      }
      if !linear {
        return NoMemory;
      }
      if !running || quiesced {
        return NoDevice;
      }
      if |queue| >= TX_QUEUE_MAX {
        return Busy;
      }
      queue := queue + [skb.value];
      Flush(between);
      Assoc(old(ring.log).pushed, old(queue), [skb.value]);
      if |queue| >= TX_PAUSE {
        paused := true;
      }
      status := Accepted;
    }

    /** esp_shm_tx_work() */
    method TxWork(between: seq<nat>)
      requires Valid()
      modifies `queue, `paused, `toFirmware, `toHost, `workPending, ring, ring.data
      ensures Valid() && !workPending
      ensures ring.log.pushed + queue == old(ring.log).pushed + old(queue)
      ensures running && !quiesced ==> paused == (old(paused) && |queue| > TX_RESUME)
    {
      hide Counters, History, RecordLen, Total;
      workPending := false;
      Flush(between);
    }

    /** esp_shm_quiesce_for_fw_reset(): the frames of the old session are dropped. */
    method QuiesceForReset()
      requires Valid()
      modifies `queue, `quiesced, `workPending
      ensures Valid() && quiesced && queue == []
    {
      quiesced := true;
      workPending := false;
      queue := [];
    }

    /** esp_shm_reinit_after_fw_reset(): the work lets the net queues run again. */
    method ReinitAfterReset() returns (ok: bool)
      requires Valid()
      modifies `quiesced, `workPending
      ensures Valid() && queue == old(queue) && ok == running
      ensures if ok then !quiesced && workPending else quiesced == old(quiesced) && workPending == old(workPending)
    {
      ok := running;
      if ok {
        quiesced := false;
        workPending := true;
      }
    }
  }

  /** A frame always fits in an empty ring. */
  lemma EmptyFits(ring: ShmRing, frame: Bytes)
    requires ring.Valid() && ring.link == TO_FW && FrameOk(TO_FW, frame)
    ensures Total(ring.log.flight) + RecordLen(|frame|) > TO_FW_SIZE ==> ring.log.flight != []
  {
    RecordLenBounds(|frame|);
  }

  lemma SplitPushed(pushed: seq<Bytes>, all: seq<Bytes>, n: nat)
    requires n <= |all|
    ensures (pushed + all[..n]) + all[n..] == pushed + all
  {
    Assoc(pushed, all[..n], all[n..]);
    assert all[..n] + all[n..] == all;
  }
}
