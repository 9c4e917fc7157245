/**
 One ring as a data structure, with the two copies that may split at the ring end, the push
 of the producer and the read of the consumer.  Here each call runs alone; RingDirection has
 the same accesses as interleaved steps.
 */
module ShmRing {
  import opened Words
  import opened RingLayout
  import opened RingDirection

  /** The ring bytes after `src` is stored at the counter `pos`. */
  function Put(mem: Bytes, pos: nat, src: Bytes): (r: Bytes)
    requires |mem| > 0
    ensures |r| == |mem|
  {
    seq(|mem|, q requires 0 <= q < |mem| =>
      var i := (q - pos) % |mem|;
      if i < |src| then src[i] else mem[q])
  }

  /** The `n` ring bytes from the counter `pos`. */
  function Get(mem: Bytes, pos: nat, n: nat): Bytes
    requires |mem| > 0
  {
    seq(n, i requires 0 <= i < n => mem[Slot(|mem|, pos + i)])
  }

  /** Place `q` is `q - off` bytes after the start of a stretch that starts at `off`. */
  lemma OffsetOf(size: nat, pos: nat, q: nat)
    requires IsSize(size) && q < size
    ensures var off := Slot(size, pos);
            (q - pos) % size == if off <= q then q - off else size - off + q
  {
    var k := pos / size;
    if size == TO_FW_SIZE {
      assert q - pos == q - pos % 0x4000 - 0x4000 * k;
    } else {
      assert q - pos == q - pos % 0x8000 - 0x8000 * k;
    }
  }

  /** A store that passes the ring end is two stores. */
  lemma PutSplits(mem: Bytes, pos: nat, src: Bytes)
    requires IsSize(|mem|) && |src| <= |mem|
    ensures var off := pos % |mem|;
            var first := if |src| < |mem| - off then |src| else |mem| - off;
            var once := mem[..off] + src[..first] + mem[off + first..];
            once[..0] + src[first..] + once[|src| - first..] == Put(mem, pos, src)
  {
    var off := pos % |mem|;
    var first := if |src| < |mem| - off then |src| else |mem| - off;
    var once := mem[..off] + src[..first] + mem[off + first..];
    var twice := once[..0] + src[first..] + once[|src| - first..];
    forall q | 0 <= q < |mem| ensures twice[q] == Put(mem, pos, src)[q] {
      OffsetOf(|mem|, pos, q);
    }
  }

  /** What is stored is found again, also over the ring end. */
  lemma PutGet(mem: Bytes, pos: nat, src: Bytes, i: nat)
    requires IsSize(|mem|) && i < |src| <= |mem|
    ensures Put(mem, pos, src)[Slot(|mem|, pos + i)] == src[i]
  {
    var q := Slot(|mem|, pos + i);
    OffsetOf(|mem|, pos, q);
    AddSlot(|mem|, pos, i);
  }

  lemma AddSlot(size: nat, pos: nat, i: nat)
    requires IsSize(size) && i < size
    ensures var off := Slot(size, pos);
            Slot(size, pos + i) == if off + i < size then off + i else off + i - size
  {
    var sum := Slot(size, pos) + i;
    var (turns, r) := if sum < size then (0, sum) else (1, sum - size);
    if size == TO_FW_SIZE {
      SmallRemainder(pos + i, pos / 0x4000 + turns, r);
    } else {
      LargeRemainder(pos + i, pos / 0x8000 + turns, r);
    }
  }

  lemma SmallRemainder(x: nat, q: nat, r: nat)
    requires x == 0x4000 * q + r && r < 0x4000
    ensures x % 0x4000 == r
  {
  }

  lemma LargeRemainder(x: nat, q: nat, r: nat)
    requires x == 0x8000 * q + r && r < 0x8000
    ensures x % 0x8000 == r
  {
  }

  /** A store leaves the other bytes, up to one turn of the ring. */
  lemma PutLeaves(mem: Bytes, pos: nat, src: Bytes, p: nat)
    requires IsSize(|mem|) && pos + |src| <= p < pos + |mem|
    ensures Put(mem, pos, src)[Slot(|mem|, p)] == mem[Slot(|mem|, p)]
  {
    OffsetOf(|mem|, pos, Slot(|mem|, p));
    AddSlot(|mem|, pos, p - pos);
  }

  /** A 32-bit counter stores and reads at the places of the unbounded one. */
  lemma PutWraps(mem: Bytes, w: u32, pos: nat, src: Bytes)
    requires IsSize(|mem|) && Wraps(w, pos)
    ensures Put(mem, w, src) == Put(mem, pos, src)
  {
    forall q | 0 <= q < |mem| ensures Put(mem, w, src)[q] == Put(mem, pos, src)[q] {
      SameOffset(|mem|, w, pos, q);
    }
  }

  lemma SameOffset(size: nat, w: u32, pos: nat, q: nat)
    requires IsSize(size) && Wraps(w, pos) && q < size
    ensures (q - w) % size == (q - pos) % size
  {
    WrapKeepsSlot(size, w, pos);
    OffsetOf(size, w, q);
    OffsetOf(size, pos, q);
    hide Wraps, Slot;
  }

  lemma GetWraps(mem: Bytes, w: u32, pos: nat, n: nat)
    requires IsSize(|mem|) && Wraps(w, pos) && n <= |mem|
    ensures Get(mem, w, n) == Get(mem, pos, n)
  {
    WrapKeepsSlot(|mem|, w, pos);
    hide Wraps;
    forall i | 0 <= i < n ensures Get(mem, w, n)[i] == Get(mem, pos, n)[i] {
      AddSlot(|mem|, w, i);
      AddSlot(|mem|, pos, i);
      hide Slot;
    }
  }

  lemma TurnSlot(size: nat, p: nat)
    requires IsSize(size)
    ensures Slot(size, p + size) == Slot(size, p)
  {
    if size == TO_FW_SIZE {
      assert (p + 0x4000) % 0x4000 == p % 0x4000;
    } else {
      assert (p + 0x8000) % 0x8000 == p % 0x8000;
    }
  }

  /** A store between the end of the records and one turn after their start leaves them. */
  lemma {:induction false} PutKeepsHolds(mem: Bytes, pos: nat, src: Bytes, t: nat, fs: seq<Bytes>)
    requires IsSize(|mem|) && Holds(mem, t, fs)
    requires t + Total(fs) <= pos && pos + |src| <= t + |mem|
    ensures Holds(Put(mem, pos, src), t, fs)
    decreases fs
  {
    hide Put, Slot, Record;
    if fs != [] {
      var f := fs[0];
      RecordLenBounds(|f|);
      PutKeepsHolds(mem, pos, src, t + RecordLen(|f|), fs[1..]);
      forall i | 0 <= i < 4 + |f|
        ensures Put(mem, pos, src)[Slot(|mem|, t + i)] == Record(f)[i]
      {
        PutLeaves(mem, pos, src, t + i + |mem|);
        TurnSlot(|mem|, t + i);
      }
    }
  }

  /** The three stores of a push leave the record at `h`: the header and the payload, then the
      length word. */
  lemma PutRecord(mem: Bytes, h: nat, hdr: Bytes, payload: Bytes)
    requires IsSize(|mem|) && 4 + |hdr| + |payload| <= |mem|
    ensures var mem3 := PushBytes(mem, h, hdr, payload);
            RecordAt(mem3, h, hdr + payload)
  {
    var f, n := hdr + payload, |hdr|;
    var mem1 := Put(mem, h + 4, hdr);
    var mem2 := Put(mem1, h + 4 + n, payload);
    var mem3 := Put(mem2, h, Le32(|f|));
    hide Put, Slot, Le32;
    forall i | 0 <= i < 4 + |f| ensures mem3[Slot(|mem|, h + i)] == Record(f)[i] {
      if i < 4 {
        PutGet(mem2, h, Le32(|f|), i);
      } else {
        PutLeaves(mem2, h, Le32(|f|), h + i);
        if i < 4 + n {
          PutLeaves(mem1, h + 4 + n, payload, h + i + |mem|);
          TurnSlot(|mem|, h + i);
          PutGet(mem, h + 4, hdr, i - 4);
        } else {
          PutGet(mem1, h + 4 + n, payload, i - 4 - n);
        }
      }
    }
  }

  function PushBytes(mem: Bytes, h: nat, hdr: Bytes, payload: Bytes): Bytes
    requires |mem| > 0 && |hdr| + |payload| < WORD
  {
    Put(Put(Put(mem, h + 4, hdr), h + 4 + |hdr|, payload), h, Le32(|hdr| + |payload|))
  }

  class ShmRing {
    const link: Link
    const data: array<byte>
    var head: u32
    var tail: u32
    var wait: bool
    ghost var log: Log

    ghost predicate Valid()
      reads this, data
    {
      Counters(link, Ring(data[..], head, tail), log) && History(link, log)
    }

    /** shm_init() clears the block. */
    constructor (link: Link)
      requires link == TO_FW || link == TO_HOST
      ensures Valid() && this.link == link && !wait && fresh(data)
      ensures log == Log(0, 0, [], [], [], [], [])
    {
      this.link := link;
      data := new byte[link.size](_ => 0);
      head, tail, wait := 0, 0, false;
      log := Log(0, 0, [], [], [], [], []);
    }

    /** shm_copy_to(): words while the source is aligned, then bytes. */
    method CopyTo(off: nat, src: Bytes, aligned: bool)
      requires off + |src| <= data.Length
      modifies data
      ensures data[..] == old(data[..off]) + src + old(data[off + |src|..])
    {
      var k := 0;
      while aligned && k + 4 <= |src|
        invariant k <= |src|
        invariant forall q :: 0 <= q < data.Length ==>
                    data[q] == if off <= q < off + k then src[q - off] else old(data[q])
      {
        data[off + k] := src[k];
        data[off + k + 1] := src[k + 1];
        data[off + k + 2] := src[k + 2];
        data[off + k + 3] := src[k + 3];
        k := k + 4;
      }
      while k < |src|
        invariant k <= |src|
        invariant forall q :: 0 <= q < data.Length ==>
                    data[q] == if off <= q < off + k then src[q - off] else old(data[q])
      {
        data[off + k] := src[k];
        k := k + 1;
      }
    }

    /** ring_copy_in(): two copies when the bytes pass the ring end. */
    method CopyIn(pos: u32, src: Bytes, aligned: bool)
      requires IsSize(data.Length) && |src| <= data.Length
      modifies data
      ensures data[..] == Put(old(data[..]), pos, src)
    {
      hide Put;
      var off := pos % data.Length;
      var first := if |src| < data.Length - off then |src| else data.Length - off;
      PutSplits(data[..], pos, src);
      CopyTo(off, src[..first], aligned);
      CopyTo(0, src[first..], aligned);
    }

    /** ring_copy_out() */
    method CopyOut(pos: u32, len: nat) returns (dst: Bytes)
      requires IsSize(data.Length) && len <= data.Length
      ensures dst == Get(data[..], pos, len)
    {
      var off := pos % data.Length;
      var first := if len < data.Length - off then len else data.Length - off;
      dst := data[off..off + first] + data[..len - first];
      forall i | 0 <= i < len ensures dst[i] == Get(data[..], pos, len)[i] {
        AddSlot(data.Length, pos, i);
      }
    }

    /** esp_shm_push() and ring_push(): the frame is `hdr` and then `payload`. */
    method Push(hdr: Bytes, payload: Bytes, aligned: bool) returns (ok: bool, kick: bool)
      requires Valid() && FrameOk(link, hdr + payload)
      modifies data, `head, `log
      ensures Valid()
      ensures ok <==> RecordLen(|hdr| + |payload|) <= link.size - Total(old(log).flight)
      ensures ok ==> log.flight == old(log).flight + [hdr + payload]
                     && log.pushed == old(log).pushed + [hdr + payload]
                     && log.taken == old(log).taken && log.delivered == old(log).delivered
      ensures ok ==> (kick <==> old(log).flight == [])
      ensures !ok ==> log == old(log) && head == old(head) && data[..] == old(data[..]) && !kick
    {
      var len := |hdr| + |payload|;
      var need := RecordLen(len);
      RoomIsFree(link, Ring(data[..], head, tail), log);
      if need > Room(link.size, head, tail) {
        return false, false;
      }
      ghost var mem := data[..];
      RecordLenBounds(len);
      CopyIn((head + 4) % WORD, hdr, aligned);
      CopyIn((head + 4 + |hdr|) % WORD, payload, aligned);
      CopyIn(head, Le32(len), true);
      PushBytesKeep(link, Ring(mem, head, tail), log, hdr, payload);
      ghost var h := log.h;
      var oldHead := head;
      head := (head + need) % WORD;
      log := log.(h := h + need, pushed := log.pushed + [hdr + payload], flight := log.flight + [hdr + payload]);
      kick := tail == oldHead;
      ok := true;
    }

    /** esp_shm_rx_done(), and the same steps of shm_read(): store TAIL, then clear WAIT. */
    method RxDone(newTail: u32) returns (ring: bool)
      modifies `tail, `wait
      ensures tail == newTail && !wait && ring == old(wait)
    {
      tail := newTail;
      ring := wait;
      if ring {
        wait := false;
      }
    }

    /** One frame of esp_shm_read() or shm_read() from a ring that is not empty.  `memory`:
        there is memory for it.  Linux drops a frame without memory; the firmware leaves it. */
    method Take(memory: bool) returns (frame: Option<Bytes>, bad: bool, ring: bool)
      requires Valid() && head != tail
      modifies `tail, `wait, `log
      ensures Valid() && !bad && old(log).flight != []
      ensures frame == if memory then Some(old(log).flight[0]) else None
      ensures memory || link.drops ==>
                && log.flight == old(log).flight[1..] && log.pushed == old(log).pushed
                && log.taken == old(log).taken + [old(log).flight[0]]
                && log.kept == old(log).kept + [memory]
                && ring == old(wait) && !wait
      ensures !memory && !link.drops ==> log == old(log) && tail == old(tail) && wait == old(wait) && !ring
    {
      hide Counters, History, RecordLen, BadLength, Get, Room, FromLe32, Le32;
      frame, ring, bad := None, false, true;
      ghost var r := Ring(data[..], head, tail);
      RoomIsFree(link, r, log);
      RecordIsRead(link, r, log);
      GoodLength(link, r, log);
      var word := CopyOut(tail, 4);
      var len := FromLe32(word);
      var body := CopyOut((tail + 4) % WORD, if len <= data.Length then len else 0);
      if BadLength(link, len, (head - tail) % WORD) {
        return;
      }
      bad := false;
      if !memory && !link.drops {
        return;
      }
      if memory {
        frame := Some(body);
      }
      StoreTailCounters(link, r, log, (tail + RecordLen(len)) % WORD);
      TakenHistory(link, log, RecordLen(len), memory);
      SameFlight(link, r.(tail := (tail + RecordLen(len)) % WORD), log, RecordLen(len), memory);
      ring := RxDone((tail + RecordLen(len)) % WORD);
      log := TakenLog(log, RecordLen(len), memory);
    }

    /** esp_shm_read(): the next frame that gets memory; `memory[k]` answers the k-th request,
        and there is memory after them.  Frames before it are dropped. */
    method Read(memory: seq<bool>) returns (frame: Option<Bytes>, dropped: nat, rings: nat)
      requires Valid() && link == TO_HOST
      modifies `tail, `wait, `log
      ensures Valid() && log.pushed == old(log).pushed
      ensures dropped <= |old(log).flight|
      ensures dropped <= |memory| && forall k :: 0 <= k < dropped ==> !memory[k]
      ensures match frame
              case None => dropped == |old(log).flight| && log.flight == []
              case Some(f) =>
                && dropped < |old(log).flight| && f == old(log).flight[dropped]
                && log.flight == old(log).flight[dropped + 1..]
                && (dropped < |memory| ==> memory[dropped])
      ensures rings == if old(wait) && log.flight != old(log).flight then 1 else 0
    {
      frame, dropped, rings := None, 0, 0;
      while true
        invariant Valid() && log.pushed == old(log).pushed
        invariant dropped <= |old(log).flight| && log.flight == old(log).flight[dropped..]
        invariant frame.None? && dropped <= |memory| && forall j :: 0 <= j < dropped ==> !memory[j]
        invariant rings == if old(wait) && dropped > 0 then 1 else 0
        invariant wait == (old(wait) && dropped == 0)
        decreases |old(log).flight| - dropped
      {
        RoomIsFree(link, Ring(data[..], head, tail), log);
        hide Counters, History, Room;
        if head == tail {
          break;
        }
        var enough := dropped >= |memory| || memory[dropped];
        var bad, ring;
        frame, bad, ring := Take(enough);
        rings := if ring then rings + 1 else rings;
        if enough {
          return;
        }
        dropped := dropped + 1;
      }
    }
  }

  ghost function TakenLog(log: Log, n: nat, keep: bool): Log
    requires log.flight != []
  {
    var f := log.flight[0];
    log.(t := log.t + n, flight := log.flight[1..], taken := log.taken + [f], kept := log.kept + [keep],
         delivered := if keep then log.delivered + [f] else log.delivered)
  }

  lemma TakenHistory(link: Link, log: Log, n: nat, keep: bool)
    requires History(link, log) && log.flight != [] && (keep || link.drops)
    ensures History(link, TakenLog(log, n, keep))
  {
    var f, log' := log.flight[0], TakenLog(log, n, keep);
    assert log'.taken[..|log.taken|] == log.taken && log'.kept[..|log.kept|] == log.kept;
    Assoc(log.taken, [f], log.flight[1..]);
    assert [f] + log.flight[1..] == log.flight;
  }

  lemma SameFlight(link: Link, r: Ring, log: Log, n: nat, keep: bool)
    requires log.flight != [] && Counters(link, r, log.(t := log.t + n, flight := log.flight[1..]))
    ensures Counters(link, r, TakenLog(log, n, keep))
  {
    hide Wraps, Total, Holds, Aligned;
  }

  /** The length word of the first frame passes the checks. */
  lemma GoodLength(link: Link, r: Ring, log: Log)
    requires Counters(link, r, log) && log.flight != []
    ensures !BadLength(link, |log.flight[0]|, (r.head - r.tail) % WORD) && |log.flight[0]| <= link.size
    ensures IsSize(|r.mem|) && |r.mem| == link.size
  {
    hide Holds, RecordLen, Wraps, Aligned;
    assert log.flight[..|log.flight|] == log.flight;
    FirstFits(link, r, log, r.head, |log.flight|);
  }

  /** The consumer's two copies give the first frame in flight. */
  lemma RecordIsRead(link: Link, r: Ring, log: Log)
    requires Counters(link, r, log) && log.flight != []
    ensures var f := log.flight[0];
            && Get(r.mem, r.tail, 4) == Le32(|f|) && FromLe32(Le32(|f|)) == |f| <= |r.mem|
            && Get(r.mem, (r.tail + 4) % WORD, |f|) == f
  {
    hide Wraps, Aligned, Le32, FromLe32, Slot, RecordLen;
    var f := log.flight[0];
    Le32RoundTrip(|f|);
    WrapsAdd(r.tail, log.t, 4);
    GetWraps(r.mem, r.tail, log.t, 4);
    RecordLenBounds(|f|);
    assert RecordAt(r.mem, log.t, f) && |f| <= |r.mem|;
    GetWraps(r.mem, (r.tail + 4) % WORD, log.t + 4, |f|);
    var w, b := Get(r.mem, log.t, 4), Get(r.mem, log.t + 4, |f|);
    forall i | 0 <= i < 4 ensures w[i] == Le32(|f|)[i] {
      assert r.mem[Slot(|r.mem|, log.t + i)] == Record(f)[i];
    }
    forall i | 0 <= i < |f| ensures b[i] == f[i] {
      assert r.mem[Slot(|r.mem|, log.t + (4 + i))] == Record(f)[4 + i];
    }
  }

  /** The three copies with 32-bit positions are those with the unbounded ones. */
  lemma PushBytesWraps(mem: Bytes, w: u32, h: nat, hdr: Bytes, payload: Bytes)
    requires IsSize(|mem|) && Wraps(w, h) && |hdr| + |payload| < WORD - 4
    ensures var mem1 := Put(mem, (w + 4) % WORD, hdr);
            var mem2 := Put(mem1, (w + 4 + |hdr|) % WORD, payload);
            Put(mem2, w, Le32(|hdr| + |payload|)) == PushBytes(mem, h, hdr, payload)
  {
    hide Wraps, Put, Le32;
    var n := |hdr|;
    WrapsAdd(w, h, 4);
    WrapsAdd(w, h, 4 + n);
    PutWraps(mem, (w + 4) % WORD, h + 4, hdr);
    var mem1 := Put(mem, h + 4, hdr);
    PutWraps(mem1, (w + 4 + n) % WORD, h + 4 + n, payload);
    PutWraps(Put(mem1, h + 4 + n, payload), w, h, Le32(|hdr| + |payload|));
  }

  lemma PushBytesLeaves(mem: Bytes, t: nat, fs: seq<Bytes>, h: nat, hdr: Bytes, payload: Bytes)
    requires IsSize(|mem|) && Holds(mem, t, fs) && |hdr| + |payload| < WORD
    requires t + Total(fs) <= h && h + 4 + |hdr| + |payload| <= t + |mem|
    ensures |PushBytes(mem, h, hdr, payload)| == |mem| && Holds(PushBytes(mem, h, hdr, payload), t, fs)
  {
    hide Holds, Total, Put, Le32;
    var n := |hdr|;
    var mem1 := Put(mem, h + 4, hdr);
    var mem2 := Put(mem1, h + 4 + n, payload);
    PutKeepsHolds(mem, h + 4, hdr, t, fs);
    PutKeepsHolds(mem1, h + 4 + n, payload, t, fs);
    PutKeepsHolds(mem2, h, Le32(n + |payload|), t, fs);
  }

  /** A push, also with 32-bit positions, leaves the frames in flight and adds its own. */
  lemma PushBytesKeep(link: Link, r: Ring, log: Log, hdr: Bytes, payload: Bytes)
    requires Counters(link, r, log) && FrameOk(link, hdr + payload)
    requires RecordLen(|hdr| + |payload|) <= link.size - (log.h - log.t)
    ensures var f := hdr + payload;
            var mem1 := Put(r.mem, (r.head + 4) % WORD, hdr);
            var mem2 := Put(mem1, (r.head + 4 + |hdr|) % WORD, payload);
            var mem3 := Put(mem2, r.head, Le32(|hdr| + |payload|));
            Counters(link, Ring(mem3, (r.head + RecordLen(|f|)) % WORD, r.tail),
                     log.(h := log.h + RecordLen(|f|), flight := log.flight + [f]))
  {
    hide Wraps, Aligned, Put, PushBytes, Le32, RecordLen, Holds, Total, RecordAt, Record;
    var f, h := hdr + payload, log.h;
    RecordLenBounds(|f|);
    PushBytesWraps(r.mem, r.head, h, hdr, payload);
    var mem := PushBytes(r.mem, h, hdr, payload);
    PushBytesLeaves(r.mem, log.t, log.flight, h, hdr, payload);
    PutRecord(r.mem, h, hdr, payload);
    RecordBytes(mem, h, f);
    PublishCounters(link, Ring(mem, r.head, r.tail), log, f, (r.head + RecordLen(|f|)) % WORD);
  }

  lemma RecordBytes(mem: Bytes, h: nat, f: Bytes)
    requires |mem| > 0 && |f| < WORD && RecordAt(mem, h, f)
    ensures forall i :: 0 <= i < 4 + |f| ==> mem[Slot(|mem|, h + i)] == Record(f)[i]
  {
    hide Slot;
  }
}
