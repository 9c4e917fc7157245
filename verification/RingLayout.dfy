/**
 The bytes of one ring of the shared block: the record format, the position of a
 byte counter in the ring, and what it means that a stretch of the ring holds a
 list of frames.  `h` and `t` count bytes without a bound; the shared words HEAD
 and TAIL hold them modulo 2^32.
 */
module RingLayout {
  import opened Words

  const TO_FW_SIZE := 0x4000
  const TO_HOST_SIZE := 0x8000
  const TO_FW_FRAME_MAX := 8 * 1024
  const TO_HOST_FRAME_MAX := 16 * 1024
  const HEADER_LEN := 12

  /** One direction: the ring size, the longest frame the producer sends, the longest the
      consumer takes, and whether the consumer drops a frame that gets no memory. */
  datatype Link = Link(size: nat, frameMax: nat, lengthMax: nat, drops: bool)

  const TO_FW := Link(TO_FW_SIZE, TO_FW_FRAME_MAX, TO_FW_FRAME_MAX, false)
  const TO_HOST := Link(TO_HOST_SIZE, TO_HOST_FRAME_MAX, TO_HOST_SIZE, true)

  ghost predicate IsSize(size: nat) {
    size == TO_FW_SIZE || size == TO_HOST_SIZE
  }

  ghost predicate FrameOk(link: Link, f: Bytes) {
    HEADER_LEN <= |f| <= link.frameMax
  }

  function RecordLen(len: nat): nat {
    4 + (len + 3) / 4 * 4
  }

  /** The bytes of a record that a push stores; the padding keeps its old bytes. */
  function Record(f: Bytes): (r: Bytes)
    requires |f| < WORD
    ensures |r| == 4 + |f|
  {
    Le32(|f|) + f
  }

  function Total(fs: seq<Bytes>): nat {
    if fs == [] then 0 else RecordLen(|fs[0]|) + Total(fs[1..])
  }

  function Slot(size: nat, pos: nat): (q: nat)
    requires size > 0
    ensures q < size
  {
    pos % size
  }

  ghost predicate RecordAt(mem: Bytes, pos: nat, f: Bytes)
    requires |mem| > 0 && |f| < WORD
  {
    forall i :: 0 <= i < 4 + |f| ==> mem[Slot(|mem|, pos + i)] == Record(f)[i]
  }

  /** The records of `fs` are in the ring, one after the other from `pos`. */
  ghost predicate Holds(mem: Bytes, pos: nat, fs: seq<Bytes>)
    requires |mem| > 0
    decreases fs
  {
    fs == [] ||
    (|fs[0]| < WORD && RecordAt(mem, pos, fs[0]) && Holds(mem, pos + RecordLen(|fs[0]|), fs[1..]))
  }

  lemma SlotsDiffer(size: nat, p: nat, q: nat)
    requires IsSize(size)
    requires p < q < p + size
    ensures Slot(size, p) != Slot(size, q)
  {
    if size == TO_FW_SIZE {
      assert p % 0x4000 != q % 0x4000;
    } else {
      assert p % 0x8000 != q % 0x8000;
    }
  }

  /** `w` is the 32-bit word that holds the counter `n`. */
  ghost predicate Wraps(w: u32, n: nat) {
    w == n % WORD
  }

  ghost predicate Aligned(n: nat) {
    n % 4 == 0
  }

  lemma WrapsAdd(w: u32, n: nat, k: nat)
    requires Wraps(w, n)
    ensures Wraps((w + k) % WORD, n + k)
  {
  }

  /** A 32-bit counter gives the same ring position as the unbounded one. */
  lemma WrapKeepsSlot(size: nat, w: u32, n: nat)
    requires IsSize(size) && Wraps(w, n)
    ensures Slot(size, w) == Slot(size, n)
  {
    var k := n / WORD;
    assert n == k * WORD + w;
    if size == TO_FW_SIZE {
      assert n == w + 0x4000 * (k * 0x4_0000);
    } else {
      assert n == w + 0x8000 * (k * 0x2_0000);
    }
  }

  /** The difference of two 32-bit counters is the distance of the unbounded ones. */
  lemma WrapKeepsDistance(head: u32, tail: u32, h: nat, t: nat)
    requires Wraps(head, h) && Wraps(tail, t) && t <= h < t + WORD
    ensures (head - tail) % WORD == h - t
    ensures head == tail <==> h == t
  {
  }

  lemma RecordLenBounds(len: nat)
    ensures 4 + len <= RecordLen(len) < 8 + len
  {
  }

  lemma RecordKeepsAligned(n: nat, len: nat)
    requires Aligned(n)
    ensures Aligned(n + RecordLen(len))
  {
    var q := (len + 3) / 4;
    assert n + RecordLen(len) == 4 * (n / 4 + 1 + q);
  }

  lemma {:induction false} TotalAppend(a: seq<Bytes>, b: seq<Bytes>)
    ensures Total(a + b) == Total(a) + Total(b)
  {
    if a == [] {
      assert a + b == b;
    } else {
      TotalAppend(a[1..], b);
      assert (a + b)[1..] == a[1..] + b;
    }
  }

  lemma TotalOne(f: Bytes)
    ensures Total([f]) == RecordLen(|f|)
  {
    assert [f][1..] == [];
  }

  /** A byte stored outside [pos, pos + Total(fs)) modulo the ring size leaves the records. */
  lemma {:induction false} HoldsFrame(mem: Bytes, pos: nat, fs: seq<Bytes>, q: nat, b: byte)
    requires IsSize(|mem|) && Holds(mem, pos, fs)
    requires pos + Total(fs) <= q < pos + |mem|
    ensures Holds(mem[Slot(|mem|, q) := b], pos, fs)
    decreases fs
  {
    if fs != [] {
      var f := fs[0];
      RecordLenBounds(|f|);
      HoldsFrame(mem, pos + RecordLen(|f|), fs[1..], q, b);
      forall i | 0 <= i < 4 + |f|
        ensures mem[Slot(|mem|, q) := b][Slot(|mem|, pos + i)] == Record(f)[i]
      {
        SlotsDiffer(|mem|, pos + i, q);
      }
    }
  }

  lemma {:induction false} HoldsAppend(mem: Bytes, pos: nat, fs: seq<Bytes>, f: Bytes)
    requires |mem| > 0 && |f| < WORD && Holds(mem, pos, fs) && RecordAt(mem, pos + Total(fs), f)
    ensures Holds(mem, pos, fs + [f])
    decreases fs
  {
    if fs == [] {
      assert fs + [f] == [f];
      assert Holds(mem, pos + RecordLen(|f|), [f][1..]);
    } else {
      HoldsAppend(mem, pos + RecordLen(|fs[0]|), fs[1..], f);
      assert (fs + [f])[1..] == fs[1..] + [f];
    }
  }
}
