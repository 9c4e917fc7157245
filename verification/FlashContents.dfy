/**
 The mailbox and the flash behind it together: what the window holds after the requests that the
 firmware has served, in every run with timeouts and late requests.
 */
module FlashContents {
  import opened Words
  import opened FlashMailbox
  import opened FlashCalls
  import opened FlashMtd

  /** The window after one more request; a flash operation with an error leaves `left`. */
  function Effect(w: Bytes, s: Served, left: Bytes): (r: Bytes)
    ensures |r| == |w|
  {
    hide Programmed, Replaced;
    var q := s.request;
    if !RequestValid(|w|, q.cmd, q.addr, q.len) then w
    else if s.status != 0 then
      if |left| == q.len then
        ReplaceLength(w, q.addr, left);
        Replaced(w, q.addr, left)
      else w
    else if q.cmd == ERASE then
      ReplaceLength(w, q.addr, Ones(q.len));
      Replaced(w, q.addr, Ones(q.len))
    else if |q.data| == q.len then
      ProgramLength(w, q.addr, q.data);
      Programmed(w, q.addr, q.data)
    else w
  }

  /** The window after all served requests. */
  function Contents(w: Bytes, served: seq<Served>, left: nat -> Bytes): (r: Bytes)
    ensures |r| == |w|
    decreases |served|
  {
    if served == [] then w
    else
      var n := |served| - 1;
      Effect(Contents(w, served[..n], left), served[n], left(n))
  }

  /** A request that the firmware reports as done has changed the window as it asks. */
  lemma DoneEffect(w: Bytes, s: Served, left: Bytes)
    requires s.status == 0 && RequestOk(s.request)
    requires RequestValid(|w|, s.request.cmd, s.request.addr, s.request.len)
    ensures Changed(w, Effect(w, s, left), s.request.cmd, s.request.addr, s.request.len, s.request.data)
  {
    hide Programmed, Replaced, Ones;
  }

  /** Any request changes at most its own bytes, and one that the firmware does not take changes none. */
  lemma AnyEffect(w: Bytes, s: Served, left: Bytes)
    ensures SameOutside(w, Effect(w, s, left), s.request.addr, s.request.addr + s.request.len)
    ensures !RequestValid(|w|, s.request.cmd, s.request.addr, s.request.len) ==> Effect(w, s, left) == w
  {
    hide Programmed, Replaced, SameOutside;
    var q := s.request;
    Untouched(w, q.addr, q.addr + q.len);
    if RequestValid(|w|, q.cmd, q.addr, q.len) {
      InWindow(|w|, q.cmd, q.addr, q.len);
      if |left| == q.len {
        ReplaceLength(w, q.addr, left);
      }
      ReplaceLength(w, q.addr, Ones(q.len));
      if |q.data| == q.len {
        ProgramLength(w, q.addr, q.data);
      }
    }
  }

  lemma NextContents(w: Bytes, served: seq<Served>, left: nat -> Bytes, p: nat)
    requires p < |served|
    ensures Contents(w, served[..p + 1], left) == Effect(Contents(w, served[..p], left), served[p], left(p))
  {
    hide Effect;
    assert served[..p + 1][..p] == served[..p];
  }

  // ---- Runs ----

  /** What the invariant of the mailbox says about a reply of 0. */
  lemma DoneIsServed(e: State, k: nat)
    requires Inv(e) && k < |e.returned| && e.returned[k].reply.Done?
    ensures var p, r := e.returned[k].posting, e.returned[k].request;
            && p == Calls(e.returned[..k]) < |e.served| <= |e.posted| && RequestOk(r)
            && e.served[p] == Served(r, 0)
            && RequestValid(e.size, r.cmd, r.addr, r.len)
  {
    hide RequestOk, RequestValid, FirmwareOk, Shows;
  }

  /** A reply of 0 means that the flash has done what this very call asked for: it is the window with
      the request done, after all requests that were served before it, among them each one whose
      call timed out. */
  lemma DoneIsInFlash(s: State, run: seq<Action>, w: Bytes, left: nat -> Bytes, k: nat)
    requires Init(s) && ValidRun(s, run) && |w| == After(s, run).size
    requires k < |After(s, run).returned| && After(s, run).returned[k].reply.Done?
    ensures k < |Requests(run, [])|
    ensures var e := After(s, run);
            var p, r := Calls(e.returned[..k]), Requests(run, [])[k];
            && p < |e.served|
            && Changed(Contents(w, e.served[..p], left), Contents(w, e.served[..p + 1], left),
                       r.cmd, r.addr, r.len, r.data)
  {
    hide After, ValidRun, Inv, RequestValid, RequestOk, Contents, Changed, Effect, Requests;
    RunInv(s, run);
    RepliesAreOfCalls(s, run);
    var e := After(s, run);
    DoneIsServed(e, k);
    var p := e.returned[k].posting;
    NextContents(w, e.served, left, p);
    DoneEffect(Contents(w, e.served[..p], left), e.served[p], left(p));
  }

  /** Whatever becomes of a posted request, also after a timeout or an error: it changes at most the
      bytes that it names, and none if the firmware does not take it. */
  lemma OtherBytesStay(s: State, run: seq<Action>, w: Bytes, left: nat -> Bytes, p: nat)
    requires Init(s) && ValidRun(s, run) && |w| == After(s, run).size && p < |After(s, run).served|
    ensures p < |After(s, run).posted|
    ensures var e := After(s, run);
            var was, now, r := Contents(w, e.served[..p], left), Contents(w, e.served[..p + 1], left), e.posted[p];
            && SameOutside(was, now, r.addr, r.addr + r.len)
            && (!RequestValid(e.size, r.cmd, r.addr, r.len) ==> now == was)
  {
    hide After, ValidRun, RequestValid, Contents, Effect, SameOutside;
    var e := After(s, run);
    ServedExactlyOnce(s, run);
    NextContents(w, e.served, left, p);
    AnyEffect(Contents(w, e.served[..p], left), e.served[p], left(p));
  }

  /** When a call, the last one, sees its reply of 0, nothing is served after its request: the window is the one
      with the request done. */
  lemma ReplyIsCurrent(s: State, run: seq<Action>, w: Bytes, left: nat -> Bytes)
    requires Init(s) && ValidRun(s, run) && |w| == After(s, run).size
    requires After(s, run).lpc.LStatus? && After(s, run).box.status == 0
    ensures |Requests(run, [])| > 0
    ensures var e := After(s, run);
            var n, r := |e.served|, Requests(run, [])[|Requests(run, [])| - 1];
            && n > 0
            && Changed(Contents(w, e.served[..n - 1], left), Contents(w, e.served, left), r.cmd, r.addr, r.len, r.data)
  {
    hide After, ValidRun, RequestValid, RequestOk, Contents, Changed, Effect, Requests;
    hide FirmwareOk, ReturnedOk, PostingsOk, Shows;
    RunInv(s, run);
    RepliesAreOfCalls(s, run);
    var e := After(s, run);
    StatusIsOwn(e);
    var n := |e.served|;
    LastIsValid(e);
    LastContents(w, e.served, left);
    DoneEffect(Contents(w, e.served[..n - 1], left), e.served[n - 1], left(n - 1));
  }

  lemma LastIsValid(e: State)
    requires ServedOk(e.size, e.box.cmd, e.fpc, e.posted, e.served) && LinuxOk(e.lpc, e.request, e.box, e.posted)
    requires e.served != [] && e.served[|e.served| - 1].status == 0
    ensures var r := e.served[|e.served| - 1].request; RequestOk(r) && RequestValid(e.size, r.cmd, r.addr, r.len)
  {
    hide RequestOk, RequestValid, Shows;
  }

  lemma LastContents(w: Bytes, served: seq<Served>, left: nat -> Bytes)
    requires served != []
    ensures var n := |served| - 1;
            Contents(w, served, left) == Effect(Contents(w, served[..n], left), served[n], left(n))
  {
    hide Effect;
  }

  // ---- The write of a buffer, over the mailbox ----

  /** `rs` are calls for the blocks of `buf` from `done`, and each has the reply 0. */
  ghost predicate WroteBlocks(rs: seq<Returned>, to: nat, buf: Bytes, done: nat)
    requires to + |buf| < WORD
    decreases |rs|
  {
    if rs == [] then done >= |buf|
    else
      && done < |buf| && rs[0].reply.Done?
      && rs[0].request == BlockRequest(to, buf, done)
      && WroteBlocks(rs[1..], to, buf, done + rs[0].request.len)
  }

  /** These are the calls of a write that issues all its blocks. */
  lemma {:induction false} WroteIsIssued(rs: seq<Returned>, to: nat, buf: Bytes, done: nat)
    requires to + |buf| < WORD && done <= |buf|
    ensures WroteBlocks(rs, to, buf, done) <==>
            |rs| == |Blocks(to, buf, done)|
            && forall k :: 0 <= k < |rs| ==> rs[k].reply.Done? && rs[k].request == Blocks(to, buf, done)[k]
    decreases |buf| - done
  {
    hide Chunk, Block;
    if rs != [] && done < |buf| {
      BlockFits(to, buf, done);
      var b, n := Blocks(to, buf, done), Chunk(to + done, |buf| - done);
      WroteIsIssued(rs[1..], to, buf, done + n);
      assert b[1..] == Blocks(to, buf, done + n);
      if |rs| == |b| && forall k :: 0 <= k < |rs| ==> rs[k].reply.Done? && rs[k].request == b[k] {
        forall k | 0 <= k < |rs| - 1 ensures rs[1..][k].reply.Done? && rs[1..][k].request == b[1..][k] {
          assert rs[1..][k] == rs[k + 1] && b[1..][k] == b[k + 1];
        }
      }
    }
  }

  lemma {:induction false} BlocksInFlash(e: State, w: Bytes, left: nat -> Bytes, i: nat, j: nat, to: nat, buf: Bytes,
                                         done: nat, was: Bytes)
    requires Inv(e) && |w| == e.size < WORD && i <= j <= |e.returned| && to + |buf| <= |w| && done <= |buf|
    requires WroteBlocks(e.returned[i..j], to, buf, done)
    requires Calls(e.returned[..i]) <= |e.served|
    requires Written(was, Contents(w, e.served[..Calls(e.returned[..i])], left), to, buf, done)
    ensures Calls(e.returned[..j]) <= |e.served|
    ensures Written(was, Contents(w, e.served[..Calls(e.returned[..j])], left), to, buf, |buf|)
    decreases j - i
  {
    hide Inv, Contents, Written, Effect, RequestValid, RequestOk, BlockRequest, Changed;
    if i < j {
      var rs := e.returned[i..j];
      assert rs[0] == e.returned[i] && rs[1..] == e.returned[i + 1..j];
      OneBlock(e, w, left, i, to, buf, done, was);
      BlocksInFlash(e, w, left, i + 1, j, to, buf, done + e.returned[i].request.len, was);
    }
  }

  lemma OneBlock(e: State, w: Bytes, left: nat -> Bytes, i: nat, to: nat, buf: Bytes, done: nat, was: Bytes)
    requires Inv(e) && |w| == e.size < WORD && i < |e.returned| && to + |buf| <= |w| && done < |buf|
    requires e.returned[i].reply.Done? && e.returned[i].request == BlockRequest(to, buf, done)
    requires Calls(e.returned[..i]) <= |e.served|
    requires Written(was, Contents(w, e.served[..Calls(e.returned[..i])], left), to, buf, done)
    ensures var n := e.returned[i].request.len;
            && done + n <= |buf| && Calls(e.returned[..i + 1]) <= |e.served|
            && Written(was, Contents(w, e.served[..Calls(e.returned[..i + 1])], left), to, buf, done + n)
  {
    hide Inv, Contents, Written, Effect, RequestValid, RequestOk, Changed, Block, Chunk;
    DoneIsServed(e, i);
    var p := Calls(e.returned[..i]);
    CallsNext(e.returned, i);
    NextContents(w, e.served, left, p);
    DoneEffect(Contents(w, e.served[..p], left), e.served[p], left(p));
    BlockFits(to, buf, done);
    NextBlock(was, Contents(w, e.served[..p], left), Contents(w, e.served[..p + 1], left), to, buf, done,
              Chunk(to + done, |buf| - done));
  }

  /** The calls from `i` on ask for the blocks of a write, and each has the reply 0. */
  ghost predicate WriteDone(calls: seq<Request>, returned: seq<Returned>, i: nat, blocks: seq<Request>) {
    && i + |blocks| <= |returned| && i + |blocks| <= |calls|
    && forall k :: i <= k < i + |blocks| ==> calls[k] == blocks[k - i] && returned[k].reply.Done?
  }

  lemma DoneIsWritten(calls: seq<Request>, returned: seq<Returned>, i: nat, to: nat, buf: Bytes)
    requires to + |buf| < WORD && WriteDone(calls, returned, i, Blocks(to, buf, 0))
    requires forall k :: 0 <= k < |returned| ==> k < |calls| && returned[k].request == calls[k]
    ensures WroteBlocks(returned[i..i + |Blocks(to, buf, 0)|], to, buf, 0)
  {
    hide WroteBlocks, Blocks;
    var rs := returned[i..i + |Blocks(to, buf, 0)|];
    forall k | 0 <= k < |rs| ensures rs[k].reply.Done? && rs[k].request == Blocks(to, buf, 0)[k] {
      assert rs[k] == returned[i + k];
    }
    WroteIsIssued(rs, to, buf, 0);
  }

  /** The whole write: when the calls from `i` on ask for all blocks of a buffer, one after the other,
      and return 0, the window holds what it held before them, programmed with the buffer.  What came
      before can be any calls, with timeouts and errors. */
  lemma WriteIsInFlash(s: State, run: seq<Action>, w: Bytes, left: nat -> Bytes, i: nat, to: nat, buf: Bytes)
    requires Init(s) && ValidRun(s, run) && |w| == After(s, run).size < WORD
    requires to + |buf| <= |w| && buf != []
    requires WriteDone(Requests(run, []), After(s, run).returned, i, Blocks(to, buf, 0))
    ensures var e := After(s, run);
            var p, q := Calls(e.returned[..i]), Calls(e.returned[..i + |Blocks(to, buf, 0)|]);
            && p <= q <= |e.served|
            && Contents(w, e.served[..q], left) == Programmed(Contents(w, e.served[..p], left), to, buf)
  {
    hide After, ValidRun, Inv, Contents, Written, WroteBlocks, Programmed, Requests, Calls;
    RunInv(s, run);
    RepliesAreOfCalls(s, run);
    var e := After(s, run);
    var j := i + |Blocks(to, buf, 0)|;
    DoneIsWritten(Requests(run, []), e.returned, i, to, buf);
    CallsGrow(e.returned, i, j);
    FirstServed(e, i, j, to, buf);
    var was := Contents(w, e.served[..Calls(e.returned[..i])], left);
    NothingWritten(was, to, buf);
    BlocksInFlash(e, w, left, i, j, to, buf, 0, was);
    WholeWritten(was, Contents(w, e.served[..Calls(e.returned[..j])], left), to, buf);
  }

  lemma FirstServed(e: State, i: nat, j: nat, to: nat, buf: Bytes)
    requires Inv(e) && i < j <= |e.returned| && to + |buf| < WORD && WroteBlocks(e.returned[i..j], to, buf, 0)
    ensures Calls(e.returned[..i]) < |e.served|
  {
    hide Inv, RequestOk, RequestValid, BlockRequest;
    assert e.returned[i..j][0] == e.returned[i];
    DoneIsServed(e, i);
  }

  lemma WholeWritten(was: Bytes, now: Bytes, to: nat, buf: Bytes)
    requires Written(was, now, to, buf, |buf|)
    ensures to + |buf| <= |was| && now == Programmed(was, to, buf)
  {
    hide Programmed;
    assert buf[..|buf|] == buf;
  }
}
