/**
 The plaintext frames of the ESPHome API, and how a client's byte stream becomes messages.  A
 frame has a zero byte, two varints for the size and the type of its message, and the message.
 */
module ApiStream {
  import opened Words
  import Varint

  const MESSAGE_MAX := 4096
  const BUFFER := 1024

  // ---- One frame ----

  function Frame(type_: u32, msg: Bytes): Bytes {
    [0] + (Varint.Encode(|msg|) + (Varint.Encode(type_) + msg))
  }

  datatype Parsed = Whole(type_: u32, msg: Bytes, size: nat) | Partial | Malformed

  /** What api_next() finds at the start of `b`. */
  function First(b: Bytes): (r: Parsed)
    ensures r.Whole? ==> 0 < r.size <= |b|
  {
    if b == [] then Partial
    else if b[0] != 0 then Malformed
    else
      match Varint.Read(b[1..])
      case Incomplete => Partial
      case Bad => Malformed
      case Value(n, used) => Typed(n, used, b[1 + used..], |b|)
  }

  /** The rest of a frame whose message has `n` bytes: `b` is what follows the length. */
  function Typed(n: nat, used: nat, b: Bytes, total: nat): (r: Parsed)
    requires total == 1 + used + |b|
    ensures r.Whole? ==> 0 < r.size <= total
  {
    match Varint.Read(b)
    case Incomplete => Partial
    case Bad => Malformed
    case Value(t, more) =>
      if n > MESSAGE_MAX then Malformed
      else if more + n > |b| then Partial
      else Whole(t, b[more..more + n], 1 + used + more + n)
  }

  /** api_next() */
  method Next(buf: Bytes) returns (r: int, type_: nat, msg: Bytes)
    ensures match First(buf)
            case Partial => r == 0
            case Malformed => r == -1
            case Whole(t, m, size) => r == size && type_ == t && msg == m
  {
    type_, msg := 0, [];
    if buf == [] {
      return 0, type_, msg;
    }
    if buf[0] != 0 {
      return -1, type_, msg;
    }
    var pos, n;
    r, pos, n := Varint.ReadAt(buf, 1);
    if r <= 0 {
      return;
    }
    ghost var used := pos - 1;
    r, pos, type_ := Varint.ReadAt(buf, pos);
    if r <= 0 {
      return;
    }
    if n > MESSAGE_MAX {
      return -1, type_, msg;
    }
    if pos + n > |buf| {
      return 0, type_, msg;
    }
    msg := buf[pos..pos + n];
    assert msg == buf[1 + used..][pos - 1 - used..pos - 1 - used + n];
    r := pos + n;
  }

  /** api_frame() */
  method ApiFrame(type_: u32, msg: Bytes) returns (buf: Bytes)
    ensures buf == Frame(type_, msg)
  {
    var length := Varint.PbVarint(|msg|);
    var kind := Varint.PbVarint(type_);
    Assoc([0], Varint.Encode(|msg|), Varint.Encode(type_));
    Assoc([0], Varint.Encode(|msg|) + Varint.Encode(type_), msg);
    Assoc(Varint.Encode(|msg|), Varint.Encode(type_), msg);
    buf := [0] + length + kind + msg;
  }

  /** Reading inverts framing, whatever comes after the frame. */
  lemma FirstOfFrame(type_: u32, msg: Bytes, more: Bytes)
    requires |msg| <= MESSAGE_MAX
    ensures First(Frame(type_, msg) + more) == Whole(type_, msg, |Frame(type_, msg)|)
  {
    hide Varint.Read, Varint.Encode;
    var length, kind := Varint.Encode(|msg|), Varint.Encode(type_);
    var b := Frame(type_, msg) + more;
    assert b[1..] == length + (kind + (msg + more));
    Varint.ReadEncode(|msg|, kind + (msg + more));
    assert b[1 + |length|..] == kind + (msg + more);
    Varint.ReadEncode(type_, msg + more);
    assert (kind + (msg + more))[|kind|..|kind| + |msg|] == msg;
  }

  /** A frame is refused as soon as its type is there if its length is above the limit, and without its
      first zero byte. */
  lemma BadFrame(n: u32, type_: u32, more: Bytes)
    ensures n > MESSAGE_MAX ==> First([0] + (Varint.Encode(n) + (Varint.Encode(type_) + more))).Malformed?
    ensures more != [] && more[0] != 0 ==> First(more).Malformed?
  {
    hide Varint.Read, Varint.Encode;
    var length, kind := Varint.Encode(n), Varint.Encode(type_);
    var b := [0] + (length + (kind + more));
    assert b[1..] == length + (kind + more);
    Varint.ReadEncode(n, kind + more);
    assert b[1 + |length|..] == kind + more;
    Varint.ReadEncode(type_, more);
  }

  /** A buffer that is cut: a whole frame stays the same, or is partial when the cut is in it. */
  lemma FirstStable(b: Bytes, n: nat)
    requires n <= |b|
    ensures First(b).Whole? ==> First(b[..n]) == if n < First(b).size then Partial else First(b)
    ensures !First(b[..n]).Partial? ==> First(b) == First(b[..n])
  {
    hide Varint.Read, Typed;
    if n > 0 && b[0] == 0 {
      assert b[..n][1..] == b[1..][..n - 1];
      Varint.ReadStable(b[1..], n - 1);
      if Varint.Read(b[..n][1..]).Value? {
        var v := Varint.Read(b[1..]);
        assert b[..n][1 + v.used..] == b[1 + v.used..][..n - 1 - v.used];
        TypedStable(v.value, v.used, b[1 + v.used..], n - 1 - v.used);
      } else if Varint.Read(b[1..]).Value? {
        TypedSize(Varint.Read(b[1..]).value, Varint.Read(b[1..]).used, b[1 + Varint.Read(b[1..]).used..]);
      }
    }
  }

  lemma TypedSize(n: nat, used: nat, b: Bytes)
    ensures var r := Typed(n, used, b, 1 + used + |b|); r.Whole? ==> r.size > 1 + used
  {
    hide Varint.Read;
  }

  lemma TypedStable(n: nat, used: nat, b: Bytes, cut: nat)
    requires cut <= |b|
    ensures var r, short := Typed(n, used, b, 1 + used + |b|), Typed(n, used, b[..cut], 1 + used + cut);
            && (r.Whole? ==> short == if 1 + used + cut < r.size then Partial else r)
            && (!short.Partial? ==> r == short)
  {
    hide Varint.Read;
    Varint.ReadStable(b, cut);
    var v := Varint.Read(b);
    if v.Value? && cut >= v.used + n {
      assert b[..cut][v.used..v.used + n] == b[v.used..v.used + n];
    }
  }

  // ---- A stream of frames ----

  /** The messages at the start of a buffer, and the bytes after them. */
  datatype Split = Split(types: seq<u32>, rest: Bytes, bad: bool)

  function Messages(b: Bytes): (r: Split)
    ensures |r.rest| <= |b|
    decreases |b|
  {
    match First(b)
    case Partial => Split([], b, false)
    case Malformed => Split([], b, true)
    case Whole(t, _, size) =>
      var later := Messages(b[size..]);
      Split([t] + later.types, later.rest, later.bad)
  }

  /** Messages of a buffer that grows: the rest goes on where the first part stopped. */
  lemma {:induction false} MessagesAppend(b: Bytes, c: Bytes)
    ensures var p := Messages(b);
            var q := Messages(p.rest + c);
            !p.bad ==> Messages(b + c) == Split(p.types + q.types, q.rest, q.bad)
    decreases |b|
  {
    hide First;
    assert (b + c)[..|b|] == b;
    FirstStable(b + c, |b|);
    match First(b)
    case Whole(t, _, size) =>
      assert (b + c)[size..] == b[size..] + c;
      MessagesAppend(b[size..], c);
      Assoc([t], Messages(b[size..]).types, Messages(Messages(b[size..]).rest + c).types);
    case _ =>
  }

  // ---- The client ----

  /** The state of a client apart from its buffer; `handled` and `sent` are history. */
  datatype Conn = Conn(open: bool, subscribed: bool, handled: seq<u32>, sent: seq<u32>)

  /** The type of the answer to a message. */
  function Reply(type_: u32): Option<u32> {
    match type_
    case 1 => Some(2)
    case 5 => Some(6)
    case 7 => Some(8)
    case 9 => Some(10)
    case 11 => Some(19)
    case 80 => Some(81)
    case _ => None
  }

  function Closed(c: Conn): Conn {
    c.(open := false, subscribed := false)
  }

  /** client_message(); `works(k)`: the socket takes the answer to the k-th message. */
  function Message(c: Conn, type_: u32, works: nat -> bool): Conn {
    var ok := works(|c.handled|);
    var d := c.(handled := c.handled + [type_]);
    var e :=
      if Reply(type_).None? then d
      else if ok then d.(sent := d.sent + [Reply(type_).value])
      else Closed(d);
    if type_ == 5 then Closed(e)
    else if type_ == 66 then e.(subscribed := true)
    else if type_ == 87 then e.(subscribed := false)
    else e
  }

  /** The messages one by one, until the client is closed. */
  function Handle(c: Conn, types: seq<u32>, works: nat -> bool): Conn
    decreases |types|
  {
    if types == [] || !c.open then c else Handle(Message(c, types[0], works), types[1..], works)
  }

  lemma {:induction false} HandleAppend(c: Conn, a: seq<u32>, b: seq<u32>, works: nat -> bool)
    ensures Handle(c, a + b, works) == Handle(Handle(c, a, works), b, works)
    decreases |a|
  {
    hide Message;
    if a == [] {
      assert a + b == b;
    } else {
      assert (a + b)[0] == a[0] && (a + b)[1..] == a[1..] + b;
      if c.open {
        HandleAppend(Message(c, a[0], works), a[1..], b, works);
      }
    }
  }

  /** The requests with an answer: the type of the answer to each. */
  const ANSWERS: map<u32, u32> := map[1 := 2, 5 := 6, 7 := 8, 9 := 10, 11 := 19, 80 := 81]

  /** The types of the answers to some messages. */
  function AnswersTo(types: seq<u32>): seq<u32> {
    if types == [] then []
    else (if types[0] in ANSWERS then [ANSWERS[types[0]]] else []) + AnswersTo(types[1..])
  }

  /** Whether a client gets the advertisements: as its last message 66 or 87 says. */
  function Subscribed(types: seq<u32>, before: bool): bool {
    if types == [] then before
    else Subscribed(types[1..], types[0] == 66 || (types[0] != 87 && before))
  }

  /** A message that ends the connection: the disconnect request, and one whose answer the socket does
      not take. */
  predicate Closes(type_: u32, ok: bool) {
    type_ == 5 || (type_ in ANSWERS && !ok)
  }

  lemma MessageMeans(c: Conn, type_: u32, works: nat -> bool)
    requires c.open
    ensures var ok, all := works(|c.handled|), c.handled + [type_];
            Message(c, type_, works) ==
              if Closes(type_, ok) then Conn(false, false, all, c.sent + if ok then [6] else [])
              else Conn(true, type_ == 66 || (type_ != 87 && c.subscribed), all,
                        c.sent + if type_ in ANSWERS then [ANSWERS[type_]] else [])
  {
    assert c.sent + [] == c.sent;
  }

  /** What a client does with messages of which none ends the connection: it has answered each request
      in order, and is subscribed as the last message about it says. */
  lemma {:induction false} MessagesMean(c: Conn, types: seq<u32>, works: nat -> bool)
    requires c.open && forall i :: 0 <= i < |types| ==> !Closes(types[i], works(|c.handled| + i))
    ensures Handle(c, types, works) ==
            Conn(true, Subscribed(types, c.subscribed), c.handled + types, c.sent + AnswersTo(types))
    decreases |types|
  {
    hide Message, Closes;
    if types == [] {
      assert c.handled + [] == c.handled && c.sent + [] == c.sent;
    } else {
      var d := Message(c, types[0], works);
      assert !Closes(types[0], works(|c.handled| + 0));
      MessageMeans(c, types[0], works);
      forall i | 0 <= i < |types| - 1 ensures !Closes(types[1..][i], works(|d.handled| + i)) {
        assert types[1..][i] == types[i + 1] && |d.handled| + i == |c.handled| + (i + 1);
      }
      MessagesMean(d, types[1..], works);
      assert types == [types[0]] + types[1..];
      Assoc(c.handled, [types[0]], types[1..]);
      Assoc(c.sent, if types[0] in ANSWERS then [ANSWERS[types[0]]] else [], AnswersTo(types[1..]));
    }
  }

  /** And with the first one that does, number `i`: the client is closed, the messages after it are not
      handled, and a disconnect request has got its answer if the socket took it. */
  lemma ClosingMeans(c: Conn, types: seq<u32>, works: nat -> bool, i: nat)
    requires c.open && i < |types| && Closes(types[i], works(|c.handled| + i))
    requires forall j :: 0 <= j < i ==> !Closes(types[j], works(|c.handled| + j))
    ensures Handle(c, types, works) ==
            Conn(false, false, c.handled + types[..i + 1],
                 c.sent + AnswersTo(types[..i]) + if works(|c.handled| + i) then [6] else [])
  {
    hide Message, Closes, AnswersTo, Subscribed;
    var before, d := types[..i], Handle(c, types[..i], works);
    MessagesMean(c, before, works);
    MessageMeans(d, types[i], works);
    assert types == before + types[i..] && types[i..][0] == types[i];
    HandleAppend(c, before, types[i..], works);
    assert types[..i + 1] == before + [types[i]];
    Assoc(c.handled, before, [types[i]]);
  }

  /** The client and its buffer. */
  datatype Stream = Stream(conn: Conn, buf: Bytes)

  /** What one client_read() of `chunk` does. */
  function Feed(s: Stream, chunk: Bytes, works: nat -> bool): Stream {
    var all := s.buf + chunk;
    var p := Messages(all);
    var c := Handle(s.conn, p.types, works);
    if !c.open then Stream(c, [])
    else if p.bad || (p.types == [] && |all| == BUFFER) then Stream(Closed(c), [])
    else Stream(c, p.rest)
  }

  /** Reads until the client is closed. */
  function FeedAll(s: Stream, chunks: seq<Bytes>, works: nat -> bool): Stream
    decreases |chunks|
  {
    if chunks == [] || !s.conn.open then s else FeedAll(Feed(s, chunks[0], works), chunks[1..], works)
  }

  /** recv() gives at most the room of the buffer, and each read has room. */
  predicate Received(s: Stream, chunks: seq<Bytes>, works: nat -> bool)
    decreases |chunks|
  {
    chunks == [] || !s.conn.open
    || (|s.buf| + |chunks[0]| <= BUFFER && Received(Feed(s, chunks[0], works), chunks[1..], works))
  }

  // ---- Any chunks ----

  predicate IsFrame(f: Bytes) {
    First(f).Whole? && First(f).size == |f| <= BUFFER
  }

  predicate AllFrames(fs: seq<Bytes>) {
    forall i :: 0 <= i < |fs| ==> IsFrame(fs[i])
  }

  /** The types of the frames that are complete in the first `n` bytes. */
  function CompleteTypes(fs: seq<Bytes>, n: nat): seq<u32>
    requires AllFrames(fs)
  {
    if fs == [] || n < |fs[0]| then []
    else [First(fs[0]).type_] + CompleteTypes(fs[1..], n - |fs[0]|)
  }

  lemma FirstAppend(f: Bytes, more: Bytes)
    requires IsFrame(f)
    ensures First(f + more) == First(f)
  {
    assert (f + more)[..|f|] == f;
    FirstStable(f + more, |f|);
    hide First;
  }

  /** The messages in a part of a frame sequence are those of the complete frames; the rest is
      smaller than the buffer. */
  lemma {:induction false} MessagesOfFrames(fs: seq<Bytes>, b: Bytes)
    requires AllFrames(fs) && b <= Concat(fs)
    ensures Messages(b).types == CompleteTypes(fs, |b|) && !Messages(b).bad && |Messages(b).rest| < BUFFER
    decreases |fs|
  {
    hide First;
    if fs == [] {
      NothingIsPartial();
    } else {
      var f := fs[0];
      var more := Concat(fs[1..]);
      FirstAppend(f, more);
      if |b| < |f| {
        assert b == f[..|b|];
        FirstStable(f, |b|);
      } else {
        assert b == f + b[|f|..] && b[|f|..] <= more;
        FirstAppend(f, b[|f|..]);
        MessagesOfFrames(fs[1..], b[|f|..]);
      }
    }
  }

  lemma NothingIsPartial()
    ensures First([]) == Partial
  {
  }

  /** Reads of a well-formed stream, after `b` of it: the client has the state of one pass over
      the whole stream. */
  lemma {:induction false} ReadsFrom(fs: seq<Bytes>, b: Bytes, c: Conn, s: Stream, chunks: seq<Bytes>, works: nat -> bool)
    requires AllFrames(fs) && b + Concat(chunks) <= Concat(fs) && Received(s, chunks, works)
    requires s.conn == Handle(c, CompleteTypes(fs, |b|), works)
    requires s.conn.open ==> s.buf == Messages(b).rest
    ensures var e := FeedAll(s, chunks, works);
            && e.conn == Handle(c, CompleteTypes(fs, |b + Concat(chunks)|), works)
            && (e.conn.open ==> |e.buf| < BUFFER && e.buf == Messages(b + Concat(chunks)).rest)
    decreases |chunks|
  {
    hide First, Handle, Messages, CompleteTypes;
    MessagesOfFrames(fs, b);
    if chunks == [] {
      assert b + Concat(chunks) == b;
    } else {
      var part := b + chunks[0];
      Assoc(b, chunks[0], Concat(chunks[1..]));
      assert part <= part + Concat(chunks[1..]);
      if s.conn.open {
        OneRead(fs, b, c, s, chunks[0], works);
        ReadsFrom(fs, part, c, Feed(s, chunks[0], works), chunks[1..], works);
      } else {
        ClosedStays(fs, b, c, Concat(chunks), works);
      }
    }
  }

  lemma ClosedStays(fs: seq<Bytes>, b: Bytes, c: Conn, more: Bytes, works: nat -> bool)
    requires AllFrames(fs) && b + more <= Concat(fs) && !Handle(c, CompleteTypes(fs, |b|), works).open
    ensures Handle(c, CompleteTypes(fs, |b + more|), works) == Handle(c, CompleteTypes(fs, |b|), works)
  {
    assert b <= b + more;
    MessagesOfFrames(fs, b);
    MessagesOfFrames(fs, b + more);
    MessagesAppend(b, more);
    var next := Messages(Messages(b).rest + more).types;
    HandleAppend(c, Messages(b).types, next, works);
    hide First, Messages, CompleteTypes;
  }

  lemma OneRead(fs: seq<Bytes>, b: Bytes, c: Conn, s: Stream, chunk: Bytes, works: nat -> bool)
    requires AllFrames(fs) && b + chunk <= Concat(fs) && |s.buf| + |chunk| <= BUFFER
    requires s.conn == Handle(c, CompleteTypes(fs, |b|), works) && s.conn.open && s.buf == Messages(b).rest
    ensures var e := Feed(s, chunk, works);
            && e.conn == Handle(c, CompleteTypes(fs, |b + chunk|), works)
            && (e.conn.open ==> e.buf == Messages(b + chunk).rest)
  {
    hide First, Handle, CompleteTypes;
    assert b <= b + chunk;
    MessagesOfFrames(fs, b);
    MessagesOfFrames(fs, b + chunk);
    MessagesAppend(b, chunk);
    var p, q := Messages(b), Messages(s.buf + chunk);
    NotFull(s.buf + chunk);
    HandleAppend(c, p.types, q.types, works);
    hide Messages;
  }

  /** Without a message, all the bytes are left over. */
  lemma NotFull(b: Bytes)
    ensures !Messages(b).bad && Messages(b).types == [] ==> Messages(b).rest == b
  {
    hide First;
  }

  /** The chunks do not matter: whatever pieces recv() gives of a frame sequence, the client
      handles the messages that are complete so far, as if it had decoded the frames one by one;
      only a message closes it, never a full buffer; and recv() always has room. */
  lemma ChunksDoNotMatter(fs: seq<Bytes>, chunks: seq<Bytes>, works: nat -> bool)
    requires AllFrames(fs) && Concat(chunks) <= Concat(fs)
    requires Received(Stream(Conn(true, false, [], []), []), chunks, works)
    ensures var e := FeedAll(Stream(Conn(true, false, [], []), []), chunks, works);
            && e.conn == Handle(Conn(true, false, [], []), CompleteTypes(fs, |Concat(chunks)|), works)
            && (e.conn.open ==> |e.buf| < BUFFER)
  {
    var c := Conn(true, false, [], []);
    assert [] + Concat(chunks) == Concat(chunks);
    NoTypes(fs);
    NothingIsPartial();
    hide First;
    ReadsFrom(fs, [], c, Stream(c, []), chunks, works);
  }

  lemma NoTypes(fs: seq<Bytes>)
    requires AllFrames(fs)
    ensures CompleteTypes(fs, 0) == []
  {
  }

  /** Frames of api_frame() are frames of such a stream. */
  lemma FrameIsFrame(type_: u32, msg: Bytes)
    requires |Frame(type_, msg)| <= BUFFER
    ensures IsFrame(Frame(type_, msg)) && First(Frame(type_, msg)).type_ == type_
  {
    assert Frame(type_, msg) + [] == Frame(type_, msg);
    hide First;
    FirstOfFrame(type_, msg, []);
  }

  // ---- client_read() ----

  datatype Recv = Data(bytes: Bytes) | WouldBlock | Ended

  /** One loop turn of client_read(). */
  lemma NextMessage(c: Conn, types: seq<u32>, b: Bytes, works: nat -> bool)
    requires First(b).Whole? && Handle(c, types, works).open
    ensures Messages(b).types == [First(b).type_] + Messages(b[First(b).size..]).types
    ensures Messages(b).rest == Messages(b[First(b).size..]).rest
    ensures Messages(b).bad == Messages(b[First(b).size..]).bad
    ensures Handle(c, types + [First(b).type_], works) == Message(Handle(c, types, works), First(b).type_, works)
  {
    hide First, Message;
    HandleAppend(c, types, [First(b).type_], works);
  }

  /** The loop of client_read() has handled `types`, and `b` is left of `all`. */
  ghost predicate Turn(c: Conn, all: Bytes, types: seq<u32>, b: Bytes, conn: Conn, works: nat -> bool) {
    && conn == Handle(c, types, works)
    && Messages(all).types == types + Messages(b).types
    && Messages(all).rest == Messages(b).rest && Messages(all).bad == Messages(b).bad
  }

  lemma FirstTurn(c: Conn, all: Bytes, works: nat -> bool)
    ensures Turn(c, all, [], all, c, works)
  {
    hide Messages;
  }

  lemma TurnAgain(c: Conn, all: Bytes, types: seq<u32>, b: Bytes, conn: Conn, works: nat -> bool)
    requires Turn(c, all, types, b, conn, works) && conn.open && First(b).Whole?
    ensures Turn(c, all, types + [First(b).type_], b[First(b).size..], Message(conn, First(b).type_, works), works)
  {
    NextMessage(c, types, b, works);
    Assoc(types, [First(b).type_], Messages(b[First(b).size..]).types);
    hide First, Message, Messages, Handle;
  }

  /** The loop ends as Feed() says. */
  lemma TurnEnds(s: Stream, chunk: Bytes, types: seq<u32>, b: Bytes, conn: Conn, works: nat -> bool)
    requires Turn(s.conn, s.buf + chunk, types, b, conn, works) && (conn.open ==> !First(b).Whole?)
    ensures Feed(s, chunk, works) ==
            if !conn.open then Stream(conn, [])
            else if First(b).Malformed? || (types == [] && |s.buf + chunk| == BUFFER) then Stream(Closed(conn), [])
            else Stream(conn, b)
  {
    hide First, Message;
    var m := Messages(b).types;
    HandleAppend(s.conn, types, m, works);
    if conn.open {
      assert types + [] == types;
    }
  }

  class Client {
    var conn: Conn
    const buf: array<byte>
    var len: nat

    ghost predicate Valid()
      reads this
    {
      buf.Length == BUFFER && len <= BUFFER && (!conn.open ==> len == 0)
    }

    ghost function State(): Stream
      requires Valid()
      reads this, buf
    {
      Stream(conn, buf[..len])
    }

    constructor ()
      ensures Valid() && fresh(buf) && State() == Stream(Conn(true, false, [], []), [])
    {
      conn, len := Conn(true, false, [], []), 0;
      buf := new byte[BUFFER];
    }

    /** client_close() */
    method Close()
      requires buf.Length == BUFFER
      modifies this
      ensures Valid() && State() == Stream(Closed(old(conn)), [])
    {
      conn, len := Closed(conn), 0;
    }

    /** client_read() */
    method Read(r: Recv, works: nat -> bool)
      requires Valid() && conn.open && (r.Data? ==> 0 < |r.bytes| <= BUFFER - len)
      modifies this, buf
      ensures Valid()
      ensures match r
              case WouldBlock => State() == old(State())
              case Ended => State() == Stream(Closed(old(conn)), [])
              case Data(chunk) => State() == Feed(old(State()), chunk, works)
    {
      hide First, Messages, Handle, Message, Feed, Turn;
      if r.WouldBlock? {
        return;
      }
      if r.Ended? {
        Close();
        return;
      }
      var c, start := conn, len;
      ghost var before := State();
      forall i | 0 <= i < |r.bytes| {
        buf[start + i] := r.bytes[i];
      }
      var total := len + |r.bytes|;
      var all := buf[..total];
      assert all == before.buf + r.bytes;
      var used := 0;
      ghost var types: seq<u32> := [];
      FirstTurn(c, all, works);
      assert all[0..] == all;
      var result, type_, msg := Next(all);
      while conn.open && result > 0
        invariant used <= total && buf[..total] == all && |all| == total <= BUFFER && (used == 0 <==> types == [])
        invariant Turn(c, all, types, all[used..], conn, works)
        invariant conn.open ==> match First(all[used..])
                                case Partial => result == 0
                                case Malformed => result == -1
                                case Whole(t, _, size) => result == size && type_ == t
        decreases total - used, conn.open
      {
        TurnAgain(c, all, types, all[used..], conn, works);
        types := types + [type_];
        assert all[used..][result..] == all[used + result..];
        conn := Message(conn, type_, works);
        used := used + result;
        result, type_, msg := Next(all[used..]);
      }
      TurnEnds(before, r.bytes, types, all[used..], conn, works);
      if !conn.open {
        len := 0;
        return;
      }
      if result < 0 || (used == 0 && total == BUFFER) {
        Close();
        return;
      }
      forall i | 0 <= i < total - used {
        buf[i] := buf[used + i];
      }
      len := total - used;
      assert buf[..len] == all[used..];
    }
  }
}
