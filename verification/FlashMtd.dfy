/**
 The MTD write and erase of Linux, cut into mailbox requests, and what they do to the flash
 window.  The flash is NOR: a program only clears bits, an erase sets all bytes to 0xff.
 */
module FlashMtd {
  import opened Words
  import opened FlashMailbox

  /** How the mailbox answers a request: `Works` for a flash operation without an error.  After
      an error or a timeout, the bytes of the request can hold anything. */
  datatype Answer = Works | FlashFails(left: Bytes) | IsBusy | TimesOut(left: Bytes)

  /** The bits that are set in both numbers. */
  function And(a: nat, b: nat): (r: nat)
    ensures r <= a && r <= b
  {
    if a == 0 || b == 0 then 0
    else 2 * And(a / 2, b / 2) + if a % 2 == 1 && b % 2 == 1 then 1 else 0
  }

  predicate Bit(n: nat, k: nat) {
    if k == 0 then n % 2 == 1 else Bit(n / 2, k - 1)
  }

  lemma {:induction false} AndBits(a: nat, b: nat, k: nat)
    ensures Bit(And(a, b), k) <==> Bit(a, k) && Bit(b, k)
    decreases k
  {
    if a == 0 || b == 0 {
      NoBits(k);
    } else if k > 0 {
      assert And(a, b) / 2 == And(a / 2, b / 2);
      AndBits(a / 2, b / 2, k - 1);
    }
  }

  lemma {:induction false} NoBits(k: nat)
    ensures !Bit(0, k)
  {
    if k > 0 {
      NoBits(k - 1);
    }
  }

  function Nor(old_: byte, new_: byte): byte {
    And(old_, new_)
  }

  predicate AllBits(n: nat) {
    n == 0 || (n % 2 == 1 && AllBits(n / 2))
  }

  lemma {:induction false} AndAllBits(m: nat, b: nat)
    requires AllBits(m) && b <= m
    ensures And(m, b) == b
  {
    if b > 0 {
      AndAllBits(m / 2, b / 2);
    }
  }

  /** An erased byte takes each value. */
  lemma ProgramErased(b: byte)
    ensures Nor(0xff, b) == b
  {
    assert AllBits(0x0f);
    assert AllBits(0xff);
    AndAllBits(0xff, b);
  }

  function NorAll(was: Bytes, buf: Bytes): Bytes
    requires |was| == |buf|
  {
    seq(|buf|, i requires 0 <= i < |buf| => Nor(was[i], buf[i]))
  }

  /** The window after `bytes` replaces its bytes from `at`. */
  function Replaced(w: Bytes, at: nat, bytes: Bytes): Bytes
    requires at + |bytes| <= |w|
  {
    w[..at] + bytes + w[at + |bytes|..]
  }

  /** The window after a program of `buf` at `at`. */
  function Programmed(w: Bytes, at: nat, buf: Bytes): Bytes
    requires at + |buf| <= |w|
  {
    Replaced(w, at, NorAll(w[at..at + |buf|], buf))
  }

  /** A program clears bits and sets none: a bit of its range stays set exactly if the buffer has it
      set too, and the other bytes are the same. */
  lemma ProgramBits(w: Bytes, at: nat, buf: Bytes)
    requires at + |buf| <= |w|
    ensures var e := Programmed(w, at, buf);
            && |e| == |w|
            && (forall i :: 0 <= i < |w| && !(at <= i < at + |buf|) ==> e[i] == w[i])
            && (forall i, k: nat :: at <= i < at + |buf| ==>
                  (Bit(e[i], k) <==> Bit(w[i], k) && Bit(buf[i - at], k)))
  {
    hide And, Bit;
    forall i, k: nat | at <= i < at + |buf|
      ensures Bit(Programmed(w, at, buf)[i], k) <==> Bit(w[i], k) && Bit(buf[i - at], k)
    {
      AndBits(w[i], buf[i - at], k);
    }
  }

  function Ones(n: nat): Bytes {
    seq(n, _ => 0xff)
  }

  /** An erase and then a write store the buffer, whatever was there before. */
  lemma EraseThenWrite(w: Bytes, from: nat, n: nat, to: nat, buf: Bytes)
    requires from <= to && to + |buf| <= from + n <= |w|
    ensures |Replaced(w, from, Ones(n))| == |w|
    ensures Programmed(Replaced(w, from, Ones(n)), to, buf) == Replaced(Replaced(w, from, Ones(n)), to, buf)
  {
    hide Nor;
    var e := Replaced(w, from, Ones(n));
    var was := e[to..to + |buf|];
    forall i | 0 <= i < |buf| ensures Nor(was[i], buf[i]) == buf[i] {
      assert was[i] == e[to + i] == 0xff;
      ProgramErased(buf[i]);
    }
    assert NorAll(was, buf) == buf;
  }

  /** Two programs side by side are one. */
  lemma ProgramJoins(w: Bytes, at: nat, a: Bytes, b: Bytes)
    requires at + |a| + |b| <= |w|
    ensures Programmed(Programmed(w, at, a), at + |a|, b) == Programmed(w, at, a + b)
  {
    hide Nor;
  }

  lemma EraseJoins(w: Bytes, at: nat, m: nat, n: nat)
    requires at + m + n <= |w|
    ensures Replaced(Replaced(w, at, Ones(m)), at + m, Ones(n)) == Replaced(w, at, Ones(m + n))
  {
  }

  /** The bytes outside of [from, to) are the same. */
  ghost predicate SameOutside(a: Bytes, b: Bytes, from: nat, to: nat) {
    |a| == |b| && forall i :: 0 <= i < |a| && (i < from || to <= i) ==> a[i] == b[i]
  }

  function Head(buf: Bytes, n: nat): (b: Bytes)
    requires n <= |buf|
    ensures |b| == n
  {
    buf[..n]
  }

  /** The next block of a buffer. */
  function Block(buf: Bytes, done: nat, n: nat): (b: Bytes)
    requires done + n <= |buf|
    ensures |b| == n
  {
    buf[done..done + n]
  }

  /** The window after a write that stopped: the first `done` bytes of `buf` are programmed at
      `to`, and of the rest only the bytes of the next block can differ. */
  ghost predicate StoppedAt(was: Bytes, now: Bytes, to: nat, buf: Bytes, done: nat)
    requires to + |buf| <= |was| && done <= |buf|
  {
    && SameOutside(was, now, to, to + done + Chunk(to + done, |buf| - done))
    && to + done <= |now| && now[..to + done] == Programmed(was, to, Head(buf, done))[..to + done]
  }

  /** The first `done` bytes of `buf` are programmed at `to`, and nothing else has changed. */
  ghost predicate Written(was: Bytes, now: Bytes, to: nat, buf: Bytes, done: nat) {
    && to + |buf| <= |was| == |now| && done <= |buf|
    && now == Programmed(was, to, Head(buf, done))
  }

  lemma Stops(was: Bytes, mid: Bytes, now: Bytes, to: nat, buf: Bytes, done: nat)
    requires Written(was, mid, to, buf, done)
    requires SameOutside(mid, now, to + done, to + done + Chunk(to + done, |buf| - done))
    ensures StoppedAt(was, now, to, buf, done)
  {
    hide Nor, Chunk;
    assert SameOutside(was, mid, to, to + done);
  }

  lemma NothingWritten(w: Bytes, to: nat, buf: Bytes)
    requires to + |buf| <= |w|
    ensures Written(w, w, to, buf, 0)
  {
  }

  ghost predicate AllValid(size: nat, rs: seq<Request>) {
    forall k :: 0 <= k < |rs| ==> RequestValid(size, rs[k].cmd, rs[k].addr, rs[k].len)
  }

  lemma AllValidAppend(size: nat, rs: seq<Request>, r: Request)
    requires RequestValid(size, r.cmd, r.addr, r.len)
    ensures AllValid(size, rs) ==> AllValid(size, rs + [r])
  {
    hide RequestValid;
  }

  /** The size of the next mailbox block of a write. */
  function Chunk(to: nat, len: nat): nat {
    var room := DATA_SIZE - to % DATA_SIZE;
    if len < room then len else room
  }

  /** Each block of a write is a request that the firmware takes, and ends where the rest of the write
      ends, or at the next multiple of the mailbox size. */
  lemma ChunkIsValid(size: nat, to: nat, len: nat)
    requires to + len <= size < WORD && len > 0
    ensures 0 < Chunk(to, len) <= len && RequestValid(size, PROGRAM, to, Chunk(to, len))
    ensures Chunk(to, len) <= DATA_SIZE && (Chunk(to, len) == len || (to + Chunk(to, len)) % DATA_SIZE == 0)
  {
    var q := to / DATA_SIZE;
    assert to % SECTOR == to % DATA_SIZE + DATA_SIZE * (q % 2);
  }

  /** The flash has done a request: a program, or an erase. */
  ghost predicate Changed(was: Bytes, now: Bytes, cmd: u32, addr: nat, len: nat, buf: Bytes) {
    && addr + len <= |was| && (cmd == PROGRAM ==> |buf| == len)
    && now == if cmd == PROGRAM then Programmed(was, addr, buf) else Replaced(was, addr, Ones(len))
  }

  /** The request for the next block of a write. */
  function BlockRequest(to: nat, buf: Bytes, done: nat): Request
    requires to + |buf| < WORD && done < |buf|
  {
    var n := Chunk(to + done, |buf| - done);
    Request(PROGRAM, to + done, n, Block(buf, done, n))
  }

  lemma BlockFits(to: nat, buf: Bytes, done: nat)
    requires to + |buf| < WORD && done < |buf|
    ensures 0 < Chunk(to + done, |buf| - done) <= |buf| - done
  {
  }

  /** The requests of a write from `done` on. */
  function Blocks(to: nat, buf: Bytes, done: nat): seq<Request>
    requires to + |buf| < WORD && done <= |buf|
    decreases |buf| - done
  {
    if done == |buf| then []
    else
      BlockFits(to, buf, done);
      [BlockRequest(to, buf, done)] + Blocks(to, buf, done + Chunk(to + done, |buf| - done))
  }

  /** A write that has issued the requests `now` after `was` goes on with those from `done`. */
  ghost predicate Issued(was: seq<Request>, now: seq<Request>, to: nat, buf: Bytes, done: nat)
    requires to + |buf| < WORD && done <= |buf|
  {
    was + Blocks(to, buf, 0) == now + Blocks(to, buf, done)
  }

  lemma IssueOne(was: seq<Request>, now: seq<Request>, to: nat, buf: Bytes, done: nat)
    requires to + |buf| < WORD && done < |buf| && Issued(was, now, to, buf, done)
    ensures done + Chunk(to + done, |buf| - done) <= |buf|
    ensures Issued(was, now + [BlockRequest(to, buf, done)], to, buf, done + Chunk(to + done, |buf| - done))
  {
    hide Chunk, BlockRequest;
    BlockFits(to, buf, done);
    Assoc(now, [BlockRequest(to, buf, done)], Blocks(to, buf, done + Chunk(to + done, |buf| - done)));
  }

  lemma IssueEnds(was: seq<Request>, now: seq<Request>, to: nat, buf: Bytes, done: nat)
    requires to + |buf| < WORD && done <= |buf| && Issued(was, now, to, buf, done)
    ensures now <= was + Blocks(to, buf, 0)
    ensures done == |buf| ==> now == was + Blocks(to, buf, 0)
  {
    hide BlockRequest, Chunk;
    if done == |buf| {
      assert now + [] == now;
    }
  }

  lemma IssueNone(was: seq<Request>, to: nat, buf: Bytes)
    requires to + |buf| < WORD
    ensures Issued(was, was, to, buf, 0)
  {
  }

  function ReplyTo(answer: Answer): Reply {
    match answer
    case Works => Done
    case FlashFails(_) => IoError
    case IsBusy => Busy
    case TimesOut(_) => TimedOut
  }

  class Window {
    var bytes: Bytes
    ghost var issued: seq<Request>

    constructor (bytes: Bytes)
      ensures this.bytes == bytes && issued == []
    {
      this.bytes := bytes;
      issued := [];
    }

    /** One request through the mailbox. */
    method Command(cmd: u32, addr: nat, len: nat, buf: Bytes, answer: Answer) returns (reply: Reply)
      requires |bytes| < WORD && addr < WORD && len < WORD
      requires cmd == ERASE || (cmd == PROGRAM && len == |buf|)
      modifies this
      ensures issued == old(issued) + [Request(cmd, addr, len, buf)] && |bytes| == |old(bytes)|
      ensures reply.Done? <==> answer.Works? && RequestValid(|bytes|, cmd, addr, len)
      ensures if RequestValid(|bytes|, cmd, addr, len) then reply == ReplyTo(answer)
              else reply == if answer.IsBusy? || answer.TimesOut? then ReplyTo(answer) else IoError
      ensures reply.Done? ==> Changed(old(bytes), bytes, cmd, addr, len, buf)
      ensures SameOutside(old(bytes), bytes, addr, addr + len)
      ensures !reply.Done? && !RequestValid(|bytes|, cmd, addr, len) ==> bytes == old(bytes)
    {
      hide Programmed, Replaced, SameOutside, RequestValid, Nor, NorAll;
      issued := issued + [Request(cmd, addr, len, buf)];
      Untouched(bytes, addr, addr + len);
      if answer.IsBusy? {
        return Busy;
      }
      if !RequestValid(|bytes|, cmd, addr, len) {
        return if answer.TimesOut? then TimedOut else IoError;
      }
      InWindow(|bytes|, cmd, addr, len);
      match answer {
        case Works =>
          if cmd == PROGRAM {
            ProgramLength(bytes, addr, buf);
          } else {
            ReplaceLength(bytes, addr, Ones(len));
          }
          bytes := if cmd == PROGRAM then Programmed(bytes, addr, buf) else Replaced(bytes, addr, Ones(len));
          reply := Done;
        case FlashFails(left) =>
          if |left| == len {
            ReplaceLength(bytes, addr, left);
          }
          bytes := if |left| == len then Replaced(bytes, addr, left) else bytes;
          reply := IoError;
        case TimesOut(left) =>
          if |left| == len {
            ReplaceLength(bytes, addr, left);
          }
          bytes := if |left| == len then Replaced(bytes, addr, left) else bytes;
          reply := TimedOut;
      }
    }

    /** esp_shm_flash_write(); `answers[k]` is the answer to the k-th request, and later ones
        work.  The first `retlen` bytes are programmed; after an error, only the next block can
        have changed too. */
    method Write(to: nat, buf: Bytes, answers: seq<Answer>) returns (reply: Reply, retlen: nat)
      requires to + |buf| <= |bytes| < WORD
      modifies this
      ensures retlen <= |buf| && |bytes| == |old(bytes)|
      ensures reply.Done? <==> retlen == |buf|
      ensures reply.Done? ==> bytes == Programmed(old(bytes), to, buf)
      ensures StoppedAt(old(bytes), bytes, to, buf, retlen)
      ensures !reply.Done? ==> var k := |issued| - |old(issued)| - 1; 0 <= k < |answers| && reply == ReplyTo(answers[k])
      ensures AllValid(|bytes|, old(issued)) ==> AllValid(|bytes|, issued)
      ensures issued <= old(issued) + Blocks(to, buf, 0)
      ensures reply.Done? ==> issued == old(issued) + Blocks(to, buf, 0)
      ensures (forall a :: a in answers ==> a.Works?) ==> reply.Done?
    {
      hide Chunk, RequestValid, Programmed, SameOutside, StoppedAt, AllValid;
      hide Head, Block, Written, Changed, Replaced, NorAll, Nor, Ones, Issued, Blocks;
      retlen, reply := 0, Done;
      var k := 0;
      NothingWritten(bytes, to, buf);
      IssueNone(issued, to, buf);
      while retlen < |buf|
        invariant retlen <= |buf| && reply.Done?
        invariant Written(old(bytes), bytes, to, buf, retlen) && |bytes| == |old(bytes)|
        invariant AllValid(|bytes|, old(issued)) ==> AllValid(|bytes|, issued)
        invariant Issued(old(issued), issued, to, buf, retlen) && |issued| == |old(issued)| + k
      {
        ChunkIsValid(|bytes|, to + retlen, |buf| - retlen);
        var n := Chunk(to + retlen, |buf| - retlen);
        var block := Block(buf, retlen, n);
        ghost var mid, r := bytes, Request(PROGRAM, to + retlen, n, block);
        AllValidAppend(|bytes|, issued, r);
        IssueOne(old(issued), issued, to, buf, retlen);
        IssueEnds(old(issued), issued + [r], to, buf, retlen + n);
        reply := Command(PROGRAM, to + retlen, n, block, if k < |answers| then answers[k] else Works);
        if !reply.Done? {
          Stops(old(bytes), mid, bytes, to, buf, retlen);
          return;
        }
        NextBlock(old(bytes), mid, bytes, to, buf, retlen, n);
        retlen := retlen + n;
        k := k + 1;
      }
      WholeStops(old(bytes), bytes, to, buf, retlen);
      IssueEnds(old(issued), issued, to, buf, retlen);
    }

    /** esp_shm_flash_erase().  A whole number of blocks is erased: up to EraseEnd(), which is
        the end of the request only if its length is a multiple of the block. */
    method Erase(addr: nat, len: nat, answers: seq<Answer>) returns (reply: Reply, failAddr: nat)
      requires addr + len <= |bytes| < WORD
      modifies this
      ensures |bytes| == |old(bytes)|
      ensures reply.Done? ==> EraseEnd(addr, len) <= |bytes| && (len > 0 ==> addr % BLOCK == 0)
                              && bytes == Replaced(old(bytes), addr, Ones(EraseEnd(addr, len) - addr))
      ensures !reply.Done? ==> addr <= failAddr < addr + len && (failAddr - addr) % BLOCK == 0
      ensures !reply.Done? ==> bytes[..failAddr] == Replaced(old(bytes), addr, Ones(failAddr - addr))[..failAddr]
                               && SameOutside(old(bytes), bytes, addr, failAddr + BLOCK)
      ensures reply.Done? && AllValid(|bytes|, old(issued)) ==> AllValid(|bytes|, issued)
      ensures (forall a :: a in answers ==> a.Works?) && addr % BLOCK == 0 && EraseEnd(addr, len) <= |bytes| ==> reply.Done?
    {
      var at, k := addr, 0;
      reply, failAddr := Done, addr;
      hide RequestValid, Replaced, SameOutside, AllValid;
      EraseNothing(bytes, addr);
      while at < addr + len
        invariant addr <= at <= EraseEnd(addr, len) && (at - addr) % BLOCK == 0 && at <= |bytes|
        invariant reply.Done? && |bytes| == |old(bytes)| && (at > addr ==> addr % BLOCK == 0)
        invariant bytes == Replaced(old(bytes), addr, Ones(at - addr))
        invariant AllValid(|bytes|, old(issued)) ==> AllValid(|bytes|, issued)
      {
        BlockIsValid(|bytes|, at);
        ghost var mid, r := bytes, Request(ERASE, at, BLOCK, []);
        ghost var before := issued;
        reply := Command(ERASE, at, BLOCK, [], if k < |answers| then answers[k] else Works);
        if !reply.Done? {
          EraseStops(old(bytes), mid, bytes, addr, at - addr);
          return reply, at;
        }
        AllValidAppend(|bytes|, before, r);
        EraseJoins(old(bytes), addr, at - addr, BLOCK);
        at := at + BLOCK;
        k := k + 1;
      }
    }
  }

  lemma Untouched(w: Bytes, from: nat, to: nat)
    ensures SameOutside(w, w, from, to)
  {
  }

  lemma InWindow(size: nat, cmd: u32, addr: u32, len: u32)
    requires RequestValid(size, cmd, addr, len)
    ensures addr + len <= size
  {
  }

  lemma HeadGrows(buf: Bytes, done: nat, n: nat)
    requires done + n <= |buf|
    ensures Head(buf, done) + Block(buf, done, n) == Head(buf, done + n)
  {
  }

  lemma ProgramLength(w: Bytes, at: nat, buf: Bytes)
    requires at + |buf| <= |w|
    ensures |Programmed(w, at, buf)| == |w| && SameOutside(w, Programmed(w, at, buf), at, at + |buf|)
  {
    hide Nor;
  }

  lemma ReplaceLength(w: Bytes, at: nat, bytes: Bytes)
    requires at + |bytes| <= |w|
    ensures |Replaced(w, at, bytes)| == |w| && SameOutside(w, Replaced(w, at, bytes), at, at + |bytes|)
  {
  }

  lemma NextBlock(was: Bytes, mid: Bytes, now: Bytes, to: nat, buf: Bytes, done: nat, n: nat)
    requires Written(was, mid, to, buf, done) && done + n <= |buf|
    requires Changed(mid, now, PROGRAM, to + done, n, Block(buf, done, n))
    ensures Written(was, now, to, buf, done + n)
  {
    hide Programmed, Replaced, Ones, Head, Block, NorAll, Nor;
    ProgramLength(was, to, Head(buf, done + n));
    ProgramJoins(was, to, Head(buf, done), Block(buf, done, n));
    HeadGrows(buf, done, n);
  }

  lemma WholeStops(was: Bytes, now: Bytes, to: nat, buf: Bytes, done: nat)
    requires Written(was, now, to, buf, done) && done == |buf|
    ensures now == Programmed(was, to, buf) && StoppedAt(was, now, to, buf, done)
  {
    assert buf[..done] == buf;
    Stops(was, now, now, to, buf, done);
  }

  // ---- The extent of an erase ----

  /** Where the last erased block of a request ends. */
  function EraseEnd(addr: nat, len: nat): nat {
    addr + (len + BLOCK - 1) / BLOCK * BLOCK
  }

  /** An erase of the MTD driver covers exactly its request if and only if the length is a
      multiple of the erase block; the driver does not check it. */
  lemma EraseCoversExactly(addr: nat, len: nat)
    ensures EraseEnd(addr, len) == addr + len <==> len % BLOCK == 0
    ensures addr + len <= EraseEnd(addr, len) < addr + len + BLOCK
  {
  }

  /** When it is not, the bytes after the request, up to the end of the last block, are lost. */
  lemma EraseGoesPast(w: Bytes, addr: nat, len: nat)
    requires EraseEnd(addr, len) <= |w|
    ensures var e := Replaced(w, addr, Ones(EraseEnd(addr, len) - addr));
            && |e| == |w|
            && (forall i :: addr + len <= i < EraseEnd(addr, len) ==> e[i] == 0xff)
            && (e[addr + len..] != w[addr + len..] <==>
                  exists i :: addr + len <= i < EraseEnd(addr, len) && w[i] != 0xff)
  {
    hide EraseEnd;
    EraseCoversExactly(addr, len);
    var to, end := addr + len, EraseEnd(addr, len);
    var e := Replaced(w, addr, Ones(end - addr));
    if e[to..] != w[to..] {
      var k :| 0 <= k < |w| - to && e[to..][k] != w[to..][k];
      assert e[to + k] != w[to + k];
    }
    if i :| to <= i < end && w[i] != 0xff {
      assert e[to..][i - to] == 0xff && w[to..][i - to] == w[i];
    }
  }

  /** Such a window: 65536 zeros.  A request for the first byte changes the second. */
  lemma EraseOneByte()
    ensures var w: Bytes := seq(BLOCK, _ => 0);
            var e := Replaced(w, 0, Ones(EraseEnd(0, 1)));
            EraseEnd(0, 1) == BLOCK && w[1] == 0 && e[1] == 0xff
  {
  }

  lemma BlockIsValid(size: nat, at: nat)
    requires at < WORD
    ensures RequestValid(size, ERASE, at, BLOCK) <==> at % BLOCK == 0 && at + BLOCK <= size
  {
  }

  /** A program passes if and only if all its bytes are in the window, in the mailbox and in one
      sector, and it starts in the window.  No command but a program and an erase passes. */
  lemma ProgramIsValid(size: nat, cmd: u32, at: u32, len: u32)
    ensures cmd != PROGRAM && cmd != ERASE ==> !RequestValid(size, cmd, at, len)
    ensures RequestValid(size, PROGRAM, at, len) <==>
            at < size && at + len <= size && len <= DATA_SIZE && (len > 0 ==> at / SECTOR == (at + len - 1) / SECTOR)
  {
    if 0 < len <= DATA_SIZE {
      assert at == SECTOR * (at / SECTOR) + at % SECTOR;
      assert (at + len - 1) == SECTOR * ((at + len - 1) / SECTOR) + (at + len - 1) % SECTOR;
    }
  }

  lemma EraseNothing(w: Bytes, at: nat)
    requires at <= |w|
    ensures Replaced(w, at, Ones(0)) == w
  {
  }

  lemma EraseStops(was: Bytes, mid: Bytes, now: Bytes, addr: nat, n: nat)
    requires addr + n <= |was| && mid == Replaced(was, addr, Ones(n))
    requires SameOutside(mid, now, addr + n, addr + n + BLOCK)
    ensures |now| == |was| && now[..addr + n] == Replaced(was, addr, Ones(n))[..addr + n]
    ensures SameOutside(was, now, addr, addr + n + BLOCK)
  {
  }
}
