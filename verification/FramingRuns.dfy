/**
 A sender and a receiver over any run: launchd_msg_send and launchd_msg_recv called in
 any order, with any answers of the kernel and chunks of any sizes.
 */
module FramingRuns {
  import opened Lists
  import opened Options
  import opened LaunchData
  import opened Framing
  import opened Protocol

  /**
   Both ends of a connection: the messages accepted, the bytes and descriptors written
   so far and the sender's buffers; the number of bytes received so far, the trees
   handed to the receiver's callback, and the receiver's buffers.
   */
  datatype System = System(ms: seq<Message>, written: seq<byte>, passed: seq<i64>, sender: Outbox,
                           got: nat, delivered: seq<Data>, peer: Inbox)

  /** A call with what it was given and what it answered; `names` is how the receiver will know the descriptors. */
  datatype Step =
    | Send(d: Option<Data>, stale: seq<byte>, names: seq<i64>, answer: Answer, sent: Sent, bytes: seq<byte>, fds: seq<i64>)
    | Recv(arrival: Arrival, result: Result, handed: seq<Data>)

  /** The bytes of the stream from one place to another. */
  function Chunk(ms: seq<Message>, x: nat, y: nat): seq<byte>
    requires AllSendable(ms) && x <= y <= |Stream(ms)|
  {
    Stream(ms)[x..y]
  }

  /** The descriptors that come with those bytes. */
  function ChunkFds(ms: seq<Message>, x: nat, y: nat): seq<i64>
    requires AllSendable(ms) && x <= y
  {
    StartedGrows(ms, x, y);
    FdStream(ms[Started(ms, x)..Started(ms, y)])
  }

  /** The message, if a call of launchd_msg_send accepts one. */
  function Accepted(e: Step): seq<Message> {
    if e.Send? && e.d.Some? && !e.sent.NoMemory? then [Message(e.d.value, e.stale, e.names, !e.answer.Took?)] else []
  }

  /**
   One step: a call of launchd_msg_send, or one of launchd_msg_recv to which nothing or
   a part of what was written and not yet received comes.
   */
  ghost predicate Next(o: Order, s: System, e: Step, s': System) {
    AllSendable(s.ms) &&
    match e
    case Send(d, stale, names, answer, sent, bytes, fds) =>
      && CanSend(d, answer, s.sender) && Sends(d, stale, answer, s.sender, sent, bytes, fds, s'.sender)
      && (d.Some? ==> |names| == |Fds(d.value)|)
      && s' == s.(ms := s.ms + Accepted(e), written := s.written + bytes, passed := s.passed + fds, sender := s'.sender)
    case Recv(arrival, result, handed) =>
      && Comes(s, arrival) && Receives(o, s.peer, arrival, result, handed, s'.peer)
      && s' == s.(got := s.got + Amount(arrival), delivered := s.delivered + handed, peer := s'.peer)
  }

  function Amount(arrival: Arrival): nat {
    if arrival.Came? then |arrival.bytes| else 0
  }

  /** What may come next. */
  predicate Comes(s: System, arrival: Arrival)
    requires AllSendable(s.ms)
  {
    match arrival
    case Truncated => false
    case Came(bytes, fds) =>
      && 0 < |bytes| <= CHUNK && s.got + |bytes| <= |s.written| && bytes == s.written[s.got..s.got + |bytes|]
      && fds == ChunkFds(s.ms, s.got, s.got + |bytes|)
    case _ => true
  }

  /** The sender's own descriptors of the messages. */
  function OwnFds(ms: seq<Message>): seq<i64> {
    if ms == [] then [] else Fds(ms[0].tree) + OwnFds(ms[1..])
  }

  /**
   What was written and what is pending make up the stream of the messages accepted.
   Only the last may be unfinished, and descriptors go out with a message's first byte.
   */
  ghost predicate SenderInStep(s: System) {
    && AllSendable(s.ms)
    && s.written + s.sender.unsent == Stream(s.ms)
    && (s.ms == [] || |Stream(s.ms[..|s.ms| - 1])| <= |s.written|)
    && s.passed == OwnFds(s.ms[..Started(s.ms, |s.written|)])
    && s.sender.fds == OwnFds(s.ms[Started(s.ms, |s.written|)..])
  }

  /** The bytes of the frames completed. */
  ghost function Whole(ms: seq<Message>, got: nat): (x: nat)
    requires AllSendable(ms)
    ensures x <= got && x == |Stream(ms[..Completed(ms, got)])|
  {
    CompletedFits(ms, got);
    |Stream(ms[..Completed(ms, got)])|
  }

  /** What came and is not part of a frame completed. */
  ghost function Expected(ms: seq<Message>, got: nat): Inbox
    requires AllSendable(ms) && got <= |Stream(ms)|
  {
    var c, s := Completed(ms, got), Started(ms, got);
    CompletedFits(ms, got);
    Inbox(Stream(ms)[Whole(ms, got)..got], FdStream(ms[c..s]))
  }

  /** Exactly the frames completed have been delivered; exactly the rest of what came is held. */
  ghost predicate ReceiverInStep(o: Order, s: System) {
    && AllSendable(s.ms) && s.got <= |s.written| <= |Stream(s.ms)|
    && s.delivered == Trees(o, s.ms[..Completed(s.ms, s.got)])
    && s.peer == Expected(s.ms, s.got)
  }

  // ---------- Counting frames ----------

  lemma {:induction false} CompletedFits(ms: seq<Message>, n: nat)
    requires AllSendable(ms)
    ensures |Stream(ms[..Completed(ms, n)])| <= n && Completed(ms, n) <= Started(ms, n)
    ensures Headed(ms[..Completed(ms, n)])
  {
    hide Frame, Packed, Sendable;
    if ms != [] && !ms[0].headless && n >= |Frame(ms[0])| {
      var c := Completed(ms[1..], n - |Frame(ms[0])|);
      CompletedFits(ms[1..], n - |Frame(ms[0])|);
      assert ms[..1 + c][1..] == ms[1..][..c] && ms[..1 + c][0] == ms[0];
      HeadedFront(ms, 1 + c);
    }
  }

  lemma HeadedFront(ms: seq<Message>, c: nat)
    requires 0 < c <= |ms|
    ensures Headed(ms[..c]) <==> !ms[0].headless && Headed(ms[1..][..c - 1])
  {
    var rest := ms[1..][..c - 1];
    assert ms[..c] == [ms[0]] + rest;
    forall j | 0 <= j < |rest| ensures rest[j] == ms[..c][j + 1] {
    }
  }

  lemma {:induction false} StartedGrows(ms: seq<Message>, x: nat, y: nat)
    requires AllSendable(ms) && x <= y
    ensures Started(ms, x) <= Started(ms, y)
  {
    hide Written, Sendable;
    if ms != [] && x >= |Written(ms[0])| {
      StartedGrows(ms[1..], x - |Written(ms[0])|, y - |Written(ms[0])|);
    }
  }

  /** Counting on from a whole number of frames. */
  lemma {:induction false} CountsSplit(o: Order, ms: seq<Message>, c: nat, n: nat)
    requires AllSendable(ms) && c <= |ms| && Headed(ms[..c]) && |Stream(ms[..c])| <= n
    ensures Completed(ms, n) == c + Completed(ms[c..], n - |Stream(ms[..c])|)
    ensures Started(ms, n) == c + Started(ms[c..], n - |Stream(ms[..c])|)
  {
    hide Frame, Packed, Sendable, Stream;
    if c == 0 {
      assert ms[..0] == [] && ms[0..] == ms;
      EmptyStream(o, []);
    } else {
      StreamOfFirst(ms, c);
      HeadedFront(ms, c);
      CountsSplit(o, ms[1..], c - 1, n - |Frame(ms[0])|);
    }
  }

  lemma StreamOfFirst(ms: seq<Message>, c: nat)
    requires AllSendable(ms) && 0 < c <= |ms|
    ensures |Stream(ms[..c])| == |Written(ms[0])| + |Stream(ms[1..][..c - 1])| && ms[c..] == ms[1..][c - 1..]
  {
    hide Written, Sendable;
    assert ms[..c][1..] == ms[1..][..c - 1] && ms[..c][0] == ms[0];
  }

  /** Messages begun later do not change the counts. */
  lemma {:induction false} CountsKept(ms: seq<Message>, m: Message, n: nat)
    requires AllSendable(ms) && Sendable(m) && n <= |Stream(ms)|
    ensures AllSendable(ms + [m])
    ensures Completed(ms + [m], n) == Completed(ms, n) && Started(ms + [m], n) == Started(ms, n)
  {
    hide Frame, Packed, Sendable;
    SendableMore(ms, m);
    if ms != [] {
      assert (ms + [m])[0] == ms[0] && (ms + [m])[1..] == ms[1..] + [m];
      if n >= |Written(ms[0])| {
        CountsKept(ms[1..], m, n - |Written(ms[0])|);
      }
    }
  }

  /** A place behind all messages but the last, in or at the end of that one. */
  lemma {:induction false} CountsLast(ms: seq<Message>, n: nat)
    requires AllSendable(ms) && ms != [] && |Stream(ms[..|ms| - 1])| <= n <= |Stream(ms)|
    ensures Started(ms, n) == if n == |Stream(ms[..|ms| - 1])| then |ms| - 1 else |ms|
  {
    hide Written, Sendable;
    if |ms| > 1 {
      StreamOfFirst(ms, |ms| - 1);
      assert ms[1..][..|ms[1..]| - 1] == ms[1..][..|ms| - 2];
      CountsLast(ms[1..], n - |Written(ms[0])|);
    } else {
      assert ms[..0] == [] && ms[1..] == [];
    }
  }

  // ---------- The sender ----------

  lemma SendableMore(ms: seq<Message>, m: Message)
    requires AllSendable(ms) && Sendable(m)
    ensures AllSendable(ms + [m])
  {
    hide Sendable;
    assert forall j :: 0 <= j < |ms + [m]| ==> (ms + [m])[j] == if j < |ms| then ms[j] else m;
  }

  lemma StreamOfOne(m: Message)
    requires Sendable(m)
    ensures AllSendable([m]) && Stream([m]) == Written(m)
  {
    hide Written, Sendable;
    assert [m][1..] == [];
    assert Stream([m]) == Written(m) + [];
  }

  lemma LastMessage(o: Order, ms: seq<Message>, m: Message)
    requires AllSendable(ms) && Sendable(m)
    ensures AllSendable(ms + [m]) && (ms + [m])[..|ms|] == ms && Stream(ms + [m]) == Stream(ms) + Written(m)
  {
    hide Written, Sendable, Stream, AllSendable;
    SendableMore(ms, m);
    StreamOfOne(m);
    assert (ms + [m])[..|ms|] == ms && (ms + [m])[|ms|..] == [m];
    StreamSplits(o, ms + [m], |ms|);
  }

  lemma {:induction false} OwnFdsSplit(ms: seq<Message>, c: nat)
    requires c <= |ms|
    ensures OwnFds(ms) == OwnFds(ms[..c]) + OwnFds(ms[c..])
  {
    if c == 0 {
      assert ms[..c] == [] && ms[c..] == ms;
    } else {
      OwnFdsSplit(ms[1..], c - 1);
      assert ms[..c][1..] == ms[1..][..c - 1] && ms[c..] == ms[1..][c - 1..] && ms[..c][0] == ms[0];
      Assoc(Fds(ms[0].tree), OwnFds(ms[1..][..c - 1]), OwnFds(ms[c..]));
    }
  }

  lemma OwnFdsOne(m: Message)
    ensures OwnFds([m]) == Fds(m.tree)
  {
    assert [m][1..] == [];
    assert Fds(m.tree) + [] == Fds(m.tree);
  }

  /** With nothing pending, every message has started. */
  lemma NothingPending(s: System)
    requires SenderInStep(s) && s.sender.unsent == []
    ensures s.written == Stream(s.ms) && Started(s.ms, |s.written|) == |s.ms| && s.sender.fds == []
    ensures s.passed == OwnFds(s.ms)
  {
    hide Written, Sendable, Stream;
    assert s.written + [] == s.written;
    if s.ms != [] {
      Positive(s.ms);
      CountsLast(s.ms, |s.written|);
    }
    assert s.ms[|s.ms|..] == [] && s.ms[..|s.ms|] == s.ms;
  }

  lemma Positive(ms: seq<Message>)
    requires AllSendable(ms) && ms != []
    ensures |Stream(ms[..|ms| - 1])| < |Stream(ms)|
  {
    hide Written, Sendable;
    var front := ms[..|ms| - 1];
    assert ms == front + [ms[|ms| - 1]];
    LastMessage(LittleEndian, front, ms[|ms| - 1]);
  }

  /** A message accepted: with its header if the first write took something, without it otherwise. */
  lemma BeginKeeps(s: System, m: Message, answer: Answer, sent: Sent, bytes: seq<byte>, fds: seq<i64>, sender: Outbox)
    requires SenderInStep(s) && s.sender.unsent == [] && Sendable(m) && m.headless == !answer.Took?
    requires answer.Took? ==> HEADER <= answer.n
    requires Writes(answer, Header(HEADER + Size(m.tree)), Outbox(Packed(m), Fds(m.tree)), sent, bytes, fds, sender)
    ensures SenderInStep(s.(ms := s.ms + [m], written := s.written + bytes, passed := s.passed + fds, sender := sender))
  {
    hide Packed, Sendable, Stream, Header, Fds, Size;
    var ms, all, out := s.ms, s.ms + [m], |s.written + bytes|;
    NothingPending(s);
    LastMessage(LittleEndian, ms, m);
    assert bytes + sender.unsent == Written(m) by { WrittenIs(m); }
    assert (s.written + bytes) + sender.unsent == s.written + (bytes + sender.unsent);
    CountsLast(all, out);
    OwnFdsSplit(all, |ms|);
    OwnFdsOne(m);
    assert all[..|all|] == all && all[|all|..] == [] && all[|ms|..] == [m] && s.passed + [] == s.passed;
  }

  lemma WrittenIs(m: Message)
    requires Sendable(m)
    ensures Written(m) == if m.headless then [] + Packed(m) else Header(HEADER + Size(m.tree)) + Packed(m)
  {
  }

  /** More of the last message written. */
  lemma ResumeKeeps(s: System, answer: Answer, sent: Sent, bytes: seq<byte>, fds: seq<i64>, sender: Outbox)
    requires SenderInStep(s) && s.sender.unsent != [] && (answer.Took? ==> 0 < answer.n)
    requires Writes(answer, [], s.sender, sent, bytes, fds, sender)
    ensures SenderInStep(s.(written := s.written + bytes, passed := s.passed + fds, sender := sender))
  {
    hide Written, AllSendable, Stream, OwnFds, Started;
    var ms, all := s.ms, s.written + bytes;
    assert ms != [] by { EmptyStream(LittleEndian, ms); }
    assert [] + s.sender.unsent == s.sender.unsent;
    if answer.Took? {
      Assoc(s.written, bytes, sender.unsent);
      CountsLast(ms, |all|);
      OwnFdsSplit(ms, Started(ms, |s.written|));
      assert ms[..|ms|] == ms && ms[|ms|..] == [];
      assert OwnFds([]) == [] by { NoFds(); }
    } else {
      assert s.written + [] == s.written && s.passed + [] == s.passed;
    }
  }

  lemma NoFds()
    ensures OwnFds([]) == []
  {
  }

  lemma SendKeepsSender(o: Order, s: System, e: Step, s': System)
    requires SenderInStep(s) && e.Send? && Next(o, s, e, s')
    ensures SenderInStep(s')
  {
    hide SenderInStep, Writes, Fds, Fits, Image;
    if e.d.None? {
      assert s'.ms == s.ms by { assert s.ms + [] == s.ms; }
      ResumeKeeps(s, e.answer, e.sent, e.bytes, e.fds, s'.sender);
    } else if e.sent.NoMemory? {
      RefusedKeeps(o, s, e, s');
    } else {
      BeginStep(s, e, s'.sender);
      var m := Message(e.d.value, e.stale, e.names, !e.answer.Took?);
      BeginKeeps(s, m, e.answer, e.sent, e.bytes, e.fds, s'.sender);
    }
  }

  lemma RefusedKeeps(o: Order, s: System, e: Step, s': System)
    requires SenderInStep(s) && e.Send? && e.d.Some? && e.sent.NoMemory? && Next(o, s, e, s')
    ensures s' == s
  {
    hide SenderInStep, Writes;
    SentSaysNoMemory(e, s.sender, s'.sender);
    assert s.ms + [] == s.ms && s.written + [] == s.written && s.passed + [] == s.passed;
  }

  lemma SentSaysNoMemory(e: Step, s: Outbox, s': Outbox)
    requires e.Send? && e.d.Some? && Fits(e.d.value) && Sends(e.d, e.stale, e.answer, s, e.sent, e.bytes, e.fds, s')
    ensures e.sent.NoMemory? <==> Size(e.d.value) > BUFFER
  {
  }

  lemma BeginStep(s: System, e: Step, sender: Outbox)
    requires e.Send? && e.d.Some? && !e.sent.NoMemory? && CanSend(e.d, e.answer, s.sender)
    requires |e.names| == |Fds(e.d.value)| && Sends(e.d, e.stale, e.answer, s.sender, e.sent, e.bytes, e.fds, sender)
    ensures var m := Message(e.d.value, e.stale, e.names, !e.answer.Took?);
            && Sendable(m) && (e.answer.Took? ==> HEADER <= e.answer.n)
            && Writes(e.answer, Header(HEADER + Size(m.tree)), Outbox(Packed(m), Fds(m.tree)), e.sent, e.bytes, e.fds, sender)
  {
    hide Writes, Header, Image, Fds;
    SentSaysNoMemory(e, s.sender, sender);
  }

  /** Sending neither takes from nor adds to what the receiver has. */
  lemma SendKeepsReceiver(o: Order, s: System, e: Step, s': System)
    requires SenderInStep(s) && ReceiverInStep(o, s) && e.Send? && Next(o, s, e, s') && SenderInStep(s')
    ensures ReceiverInStep(o, s')
  {
    hide Written, AllSendable, Stream, Trees, FdStream, Sends, Next, SenderInStep, Expected, Completed, CanSend;
    SendTouches(o, s, e, s');
    WithinStream(s');
    if Accepted(e) != [] {
      ExpectedKept(o, s.ms, Accepted(e)[0], s.got);
    }
  }

  lemma WithinStream(s: System)
    requires SenderInStep(s)
    ensures AllSendable(s.ms) && |s.written| <= |Stream(s.ms)|
  {
    hide Stream;
  }

  lemma SendTouches(o: Order, s: System, e: Step, s': System)
    requires e.Send? && Next(o, s, e, s')
    ensures s'.got == s.got && s'.delivered == s.delivered && s'.peer == s.peer && |s.written| <= |s'.written|
    ensures s'.ms == s.ms + Accepted(e) && (Accepted(e) == [] ==> s'.ms == s.ms)
    ensures AllSendable(s.ms) && forall m :: m in Accepted(e) ==> Sendable(m)
  {
    hide Writes;
    if Accepted(e) == [] {
      assert s.ms + [] == s.ms;
    } else {
      BeginStep(s, e, s'.sender);
    }
  }

  /** Messages accepted later do not change what is expected. */
  lemma ExpectedKept(o: Order, ms: seq<Message>, m: Message, got: nat)
    requires AllSendable(ms) && Sendable(m) && got <= |Stream(ms)|
    ensures AllSendable(ms + [m]) && got <= |Stream(ms + [m])|
    ensures Expected(ms + [m], got) == Expected(ms, got)
    ensures Trees(o, (ms + [m])[..Completed(ms + [m], got)]) == Trees(o, ms[..Completed(ms, got)])
  {
    hide Written, Sendable, Stream, FdStream, Trees;
    var all := ms + [m];
    LastMessage(o, ms, m);
    CountsKept(ms, m, got);
    var c, s := Completed(ms, got), Started(ms, got);
    CompletedFits(ms, got);
    CompletedFits(all, got);
    assert all[..c] == ms[..c] && all[c..s] == ms[c..s];
    var x := |Stream(ms[..c])|;
    assert (Stream(ms) + Written(m))[x..got] == Stream(ms)[x..got];
  }

  // ---------- The receiver ----------

  /** Where the receiver stands: c frames completed, of x bytes, and the messages after them. */
  ghost predicate Stands(ms: seq<Message>, got: nat, c: nat, x: nat, tail: seq<Message>) {
    && AllSendable(ms) && AllSendable(tail) && c == Completed(ms, got) && x == |Stream(ms[..c])| && tail == ms[c..]
    && x <= got && got <= |Stream(ms)| == x + |Stream(tail)| && Headed(ms[..c])
  }

  lemma Standing(ms: seq<Message>, got: nat) returns (c: nat, x: nat, tail: seq<Message>)
    requires AllSendable(ms) && got <= |Stream(ms)|
    ensures Stands(ms, got, c, x, tail) && c == Completed(ms, got) && x == Whole(ms, got) && tail == ms[c..]
  {
    hide Written, Sendable, Stream;
    c, x := Completed(ms, got), Whole(ms, got);
    tail := ms[c..];
    CompletedFits(ms, got);
    StreamSplits(LittleEndian, ms, c);
  }

  /** The bytes held, with those of the next chunk, are those from the first unfinished frame on. */
  lemma ChunkFits(ms: seq<Message>, got: nat, n: nat, c: nat, x: nat, tail: seq<Message>)
    requires Stands(ms, got, c, x, tail) && got + n <= |Stream(ms)|
    ensures Expected(ms, got).buf + Chunk(ms, got, got + n) == Stream(tail)[..got + n - x]
  {
    hide Written, Sendable, Stream, FdStream, Trees, Completed, Started;
    StreamSplits(LittleEndian, ms, c);
    TwoParts(Stream(ms), Stream(ms[..c]), Stream(tail), got, got + n);
  }

  /** And so are the descriptors. */
  lemma ChunkFdsFit(ms: seq<Message>, got: nat, n: nat, c: nat, x: nat, tail: seq<Message>)
    requires Stands(ms, got, c, x, tail) && got + n <= |Stream(ms)|
    ensures Expected(ms, got).fds + ChunkFds(ms, got, got + n) == FdStream(tail[..Started(tail, got + n - x)])
  {
    hide Written, Sendable, Stream, FdStream, Trees, Completed, Started;
    var s, s' := Started(ms, got), Started(ms, got + n);
    CompletedFits(ms, got);
    StartedGrows(ms, got, got + n);
    CountsSplit(LittleEndian, ms, c, got + n);
    Middle(ms, c, s, s');
    StreamSplits(LittleEndian, ms[c..s'], s - c);
  }

  lemma Middle(ms: seq<Message>, c: nat, s: nat, s': nat)
    requires c <= s <= s' <= |ms|
    ensures ms[c..][..s' - c] == ms[c..s'] && ms[c..s'][..s - c] == ms[c..s] && ms[c..s'][s - c..] == ms[s..s']
    ensures AllSendable(ms) ==> AllSendable(ms[c..s'])
  {
  }

  lemma TwoParts(all: seq<byte>, a: seq<byte>, b: seq<byte>, x: nat, y: nat)
    requires all == a + b && |a| <= x <= y <= |all|
    ensures all[|a|..x] + all[x..y] == b[..y - |a|]
  {
  }

  /** The loop on what is held and a chunk: delivers the frames completed by it, and keeps what is expected then. */
  lemma ArriveKeeps(o: Order, ms: seq<Message>, got: nat, n: nat)
    requires AllSendable(ms) && got + n <= |Stream(ms)|
    ensures var p := Expected(ms, got);
            var d := Drain(o, p.buf + Chunk(ms, got, got + n), p.fds + ChunkFds(ms, got, got + n));
            && Inbox(d.rest, d.fds) == Expected(ms, got + n)
            && Trees(o, ms[..Completed(ms, got)]) + d.delivered == Trees(o, ms[..Completed(ms, got + n)])
            && d.status == Left(ms[Completed(ms, got + n)..], d.rest)
  {
    hide Written, Sendable, Stream, FdStream, Trees, Drain, Completed, Started, Chunk, ChunkFds;
    var c, x, tail := Standing(ms, got);
    ChunkFits(ms, got, n, c, x, tail);
    ChunkFdsFit(ms, got, n, c, x, tail);
    DrainStream(o, tail, got + n - x);
    CompletedFits(tail, got + n - x);
    ExpectedLater(o, ms, got, n, c, x, tail);
  }

  lemma Regroup(ms: seq<Message>, c: nat, i: nat, j: nat)
    requires c <= |ms| && i <= j <= |ms| - c
    ensures ms[..c + i][..c] == ms[..c] && ms[..c + i][c..] == ms[c..][..i] && ms[c..][i..j] == ms[c + i..c + j]
  {
  }

  /** What is expected later, counted from the first frame unfinished now. */
  lemma ExpectedLater(o: Order, ms: seq<Message>, got: nat, n: nat, c: nat, x: nat, tail: seq<Message>)
    requires Stands(ms, got, c, x, tail) && got + n <= |Stream(ms)|
    ensures Trees(o, ms[..Completed(ms, got + n)]) == Trees(o, ms[..c]) + Trees(o, tail[..Completed(tail, got + n - x)])
    ensures Expected(ms, got + n) == Expected(tail, got + n - x)
    ensures ms[Completed(ms, got + n)..] == tail[Completed(tail, got + n - x)..]
  {
    hide Written, Sendable, Stream, FdStream, Trees, Completed, Started;
    var n' := got + n - x;
    var c', s' := Completed(tail, n'), Started(tail, n');
    CountsSplit(o, ms, c, got + n);
    CompletedFits(tail, n');
    CompletedFits(ms, got + n);
    Regroup(ms, c, c', s');
    Sendables(ms, c + c');
    StreamSplits(o, ms[..c + c'], c);
    StreamSplits(o, ms, c);
    Offset(Stream(ms), Stream(ms[..c]), Stream(tail), Whole(tail, n'), n');
  }

  lemma Sendables(ms: seq<Message>, c: nat)
    requires AllSendable(ms) && c <= |ms|
    ensures AllSendable(ms[..c])
  {
  }

  lemma Offset(all: seq<byte>, a: seq<byte>, b: seq<byte>, x: nat, y: nat)
    requires all == a + b && x <= y <= |b|
    ensures all[|a| + x..|a| + y] == b[x..y]
  {
  }

  // ---------- Steps ----------

  /** A message without its header is at the front. */
  lemma HeadlessFront(ms: seq<Message>, got: nat)
    requires AllSendable(ms) && got <= |Stream(ms)|
    ensures var p, c := Expected(ms, got), Completed(ms, got);
            Left(ms[c..], p.buf).BadRpc? ==> NoFrame(p.buf)
  {
    hide Sendable, FdStream, Completed, Started, Packed, Unwire;
    var c, x, tail := Standing(ms, got);
    var p := Expected(ms, got);
    if Left(tail, p.buf).BadRpc? {
      StreamSplits(LittleEndian, ms, c);
      Offset(Stream(ms), Stream(ms[..c]), Stream(tail), 0, got - x);
      EmptyStream(LittleEndian, tail);
      assert p.buf[..HEADER] == Packed(tail[0])[..HEADER];
      NoMagic(tail[0], p.buf);
    }
  }

  lemma RecvKeeps(o: Order, s: System, e: Step, s': System)
    requires SenderInStep(s) && ReceiverInStep(o, s) && e.Recv? && Next(o, s, e, s')
    ensures SenderInStep(s') && ReceiverInStep(o, s')
  {
    hide AllSendable, Stream, FdStream, Trees, Drain, Completed, Started, Expected, ChunkFds, NoFrame, Left, OwnFds;
    if e.arrival.Came? {
      RecvTakes(o, s, e, s');
    } else {
      assert s.delivered + [] == s.delivered && s.got + 0 == s.got;
    }
  }

  /** What a chunk brings: the frames completed by it are handed on, the rest is kept. */
  lemma RecvTakes(o: Order, s: System, e: Step, s': System)
    requires SenderInStep(s) && ReceiverInStep(o, s) && e.Recv? && e.arrival.Came? && Next(o, s, e, s')
    ensures s'.got == s.got + |e.arrival.bytes| && s'.got <= |s.written| <= |Stream(s.ms)| && s'.ms == s.ms
    ensures s'.delivered == s.delivered + e.handed == Trees(o, s.ms[..Completed(s.ms, s'.got)])
    ensures s'.peer == Expected(s.ms, s'.got)
    ensures !Drain(o, s.peer.buf + e.arrival.bytes, s.peer.fds + e.arrival.fds).status.WildInput?
    ensures e.result == Malformed <==> Left(s.ms[Completed(s.ms, s'.got)..], s'.peer.buf).BadRpc?
    ensures e.result == Malformed ==> !Headed(s.ms)
  {
    hide AllSendable, Stream, FdStream, Trees, Drain, Completed, Started, Expected, ChunkFds, Chunk, NoFrame, Left, OwnFds;
    var ms, got, n := s.ms, s.got, |e.arrival.bytes|;
    assert e.arrival.bytes == Chunk(ms, got, got + n) by { WrittenPart(s, got, n); }
    ArriveKeeps(o, ms, got, n);
    HeadlessFront(ms, got + n);
    LeftMeans(ms, Completed(ms, got + n), Expected(ms, got + n).buf);
  }

  lemma LeftMeans(ms: seq<Message>, c: nat, rest: seq<byte>)
    requires c <= |ms|
    ensures !Left(ms[c..], rest).WildInput? && (Left(ms[c..], rest).BadRpc? ==> !Headed(ms))
  {
  }

  lemma WrittenPart(s: System, got: nat, n: nat)
    requires SenderInStep(s) && got + n <= |s.written|
    ensures got + n <= |Stream(s.ms)| && s.written[got..got + n] == Chunk(s.ms, got, got + n)
  {
    hide Stream, OwnFds, Started;
    assert s.written == Stream(s.ms)[..|s.written|];
    assert s.written[got..got + n] == Stream(s.ms)[got..got + n];
  }

  lemma NextKeeps(o: Order, s: System, e: Step, s': System)
    requires SenderInStep(s) && ReceiverInStep(o, s) && Next(o, s, e, s')
    ensures SenderInStep(s') && ReceiverInStep(o, s')
  {
    hide SenderInStep, ReceiverInStep, Next;
    if e.Send? {
      SendKeepsSender(o, s, e, s');
      SendKeepsReceiver(o, s, e, s');
    } else {
      RecvKeeps(o, s, e, s');
    }
  }

  // ---------- Runs ----------

  ghost predicate IsRun(o: Order, trace: seq<System>, steps: seq<Step>) {
    && |trace| == |steps| + 1 && trace[0] == System([], [], [], Outbox([], []), 0, [], Inbox([], []))
    && forall k :: 0 <= k < |steps| ==> Next(o, trace[k], steps[k], trace[k + 1])
  }

  /**
   Over every run, whatever the kernel answers: what was written and what is pending are
   the stream of the messages accepted, and the receiver has been handed the trees of
   exactly the frames it has received whole, in order and each once, and holds exactly
   what it received after them.
   */
  lemma {:induction false} EveryRunInStep(o: Order, trace: seq<System>, steps: seq<Step>, k: nat)
    requires IsRun(o, trace, steps) && k <= |steps|
    ensures SenderInStep(trace[k]) && ReceiverInStep(o, trace[k])
  {
    hide Next, SenderInStep, ReceiverInStep;
    if k > 0 {
      EveryRunInStep(o, trace, steps, k - 1);
      assert Next(o, trace[k - 1], steps[k - 1], trace[k - 1 + 1]);
      NextKeeps(o, trace[k - 1], steps[k - 1], trace[k]);
    } else {
      InitiallyInStep(o);
    }
  }

  lemma InitiallyInStep(o: Order)
    ensures var s := System([], [], [], Outbox([], []), 0, [], Inbox([], [])); SenderInStep(s) && ReceiverInStep(o, s)
  {
    EmptyStream(o, []);
  }

  /** The first write of a message answered with an error. */
  predicate FirstWriteFailed(e: Step) {
    e.Send? && e.d.Some? && (e.sent.Error? || e.sent.Reset?)
  }

  lemma StepHeaded(o: Order, s: System, e: Step, s': System)
    requires Next(o, s, e, s')
    ensures Headed(s'.ms) <==> Headed(s.ms) && !FirstWriteFailed(e)
  {
    hide Receives;
    if e.Send? {
      var more := Accepted(e);
      assert |more| <= 1;
      assert forall j :: 0 <= j < |s.ms| ==> s'.ms[j] == s.ms[j];
      assert more != [] ==> s'.ms[|s.ms|] == more[0];
    }
  }

  lemma {:induction false} HeadedExactly(o: Order, trace: seq<System>, steps: seq<Step>, k: nat)
    requires IsRun(o, trace, steps) && k <= |steps|
    ensures Headed(trace[k].ms) <==> forall j :: 0 <= j < k ==> !FirstWriteFailed(steps[j])
  {
    hide Next, Headed, FirstWriteFailed;
    if k > 0 {
      HeadedExactly(o, trace, steps, k - 1);
      assert Next(o, trace[k - 1], steps[k - 1], trace[k - 1 + 1]);
      StepHeaded(o, trace[k - 1], steps[k - 1], trace[k]);
    } else {
      assert Headed(trace[0].ms) by { NoneHeadless(); }
    }
  }

  lemma NoneHeadless()
    ensures Headed([])
  {
  }

  lemma {:induction false} CountsAll(ms: seq<Message>)
    requires AllSendable(ms)
    ensures Completed(ms, |Stream(ms)|) == |ms| <==> Headed(ms)
    ensures Headed(ms) ==> Started(ms, |Stream(ms)|) == |ms|
  {
    hide Frame, Packed, Sendable;
    if ms != [] {
      CountsAll(ms[1..]);
      assert ms[..|ms|] == ms && ms[1..][..|ms| - 1] == ms[1..];
      HeadedFront(ms, |ms|);
    }
  }

  /**
   When all that was accepted has been written and received, the trees delivered are
   those of all the messages, and nothing is left over, if and only if no first write of
   a message failed.
   */
  lemma DeliveredExactly(o: Order, trace: seq<System>, steps: seq<Step>)
    requires IsRun(o, trace, steps)
    ensures
      var s := trace[|steps|];
      s.sender.unsent == [] && s.got == |s.written| ==>
        && AllSendable(s.ms) && s.passed == OwnFds(s.ms)
        && ((s.delivered == Trees(o, s.ms) && s.peer == Inbox([], []))
            <==> forall j :: 0 <= j < |steps| ==> !FirstWriteFailed(steps[j]))
        && (s.delivered == Trees(o, s.ms) <==> forall j :: 0 <= j < |steps| ==> !FirstWriteFailed(steps[j]))
  {
    hide Next, Headed, FirstWriteFailed, Trees, Stream, Written, FdStream, Sendable, OwnFds;
    var s := trace[|steps|];
    if s.sender.unsent == [] && s.got == |s.written| {
      EveryRunInStep(o, trace, steps, |steps|);
      HeadedExactly(o, trace, steps, |steps|);
      NothingPending(s);
      CountsAll(s.ms);
      assert s.ms[..|s.ms|] == s.ms && s.ms[|s.ms|..|s.ms|] == [];
      EmptyStream(o, []);
    }
  }

  lemma {:induction false} CompletedStops(ms: seq<Message>, n: nat, n': nat)
    requires AllSendable(ms) && n <= n' && Completed(ms, n) < |ms| && ms[Completed(ms, n)].headless
    ensures Completed(ms, n') == Completed(ms, n)
  {
    hide Frame, Sendable;
    if !ms[0].headless && |Frame(ms[0])| <= n {
      CompletedStops(ms[1..], n - |Frame(ms[0])|, n' - |Frame(ms[0])|);
    }
  }

  /**
   From a message whose first write failed on nothing is handed on, whatever is sent
   later, and once 16 bytes of it have come every chunk is reported as malformed.
   */
  lemma NothingAfterHeadless(o: Order, s: System, e: Step, s': System)
    requires SenderInStep(s) && ReceiverInStep(o, s) && Next(o, s, e, s') && e.Recv? && e.arrival.Came?
    requires var c := Completed(s.ms, s.got); c < |s.ms| && s.ms[c].headless
    ensures e.handed == []
    ensures e.result == Malformed <==> |s.peer.buf| + |e.arrival.bytes| >= HEADER
  {
    hide Sendable, Stream, FdStream, Trees, Drain, Started, ChunkFds, Chunk, OwnFds, Receives, SenderInStep;
    var ms, got, n := s.ms, s.got, |e.arrival.bytes|;
    RecvTakes(o, s, e, s');
    CompletedStops(ms, got, got + n);
    assert |s.delivered + e.handed| == |s.delivered|;
  }

  /** A message to be lost: no descriptors, small enough for one chunk, its first write failed. */
  predicate ToBeLost(m: Message) {
    Sendable(m) && m.headless && Fds(m.tree) == [] && Size(m.tree) <= CHUNK && |m.stale| == BUFFER
  }

  /** The states of a run that loses it: before, after its first write failed, after the rest was written, after that came. */
  function Losing(m: Message, k: nat): (s: System)
    requires ToBeLost(m)
  {
    var none, p := System([], [], [], Outbox([], []), 0, [], Inbox([], [])), Packed(m);
    if k == 0 then none
    else if k == 1 then none.(ms := [m], sender := Outbox(p, []))
    else if k == 2 then none.(ms := [m], written := p)
    else none.(ms := [m], written := p, got := |p|, peer := Inbox(p, []))
  }

  lemma LosingSend(o: Order, m: Message)
    requires ToBeLost(m)
    ensures Next(o, Losing(m, 0), Send(Some(m.tree), m.stale, [], Failed, Error, [], []), Losing(m, 1))
  {
    hide Image, Header;
  }

  lemma LosingRest(o: Order, m: Message)
    requires ToBeLost(m)
    ensures Next(o, Losing(m, 1), Send(None, [], [], Took(|Packed(m)|), Done, Packed(m), []), Losing(m, 2))
  {
    hide Image, Header;
    assert [m] + [] == [m] && [] + Packed(m) == Packed(m) == Packed(m) + [];
  }

  lemma LosingRecv(o: Order, m: Message)
    requires ToBeLost(m)
    ensures Next(o, Losing(m, 2), Recv(Came(Packed(m), []), Malformed, []), Losing(m, 3))
  {
    hide Image, Header, Drain, Unwire, Packed, ChunkFds;
    var p := Packed(m);
    ChunkOfOne(m, |p|);
    var noFds: seq<i64>, none: seq<Data> := [], [];
    assert [] + p == p && p[0..|p|] == p && noFds + noFds == noFds && none + none == none;
    HeadlessFrame(o, m, p, []);
    NoMagic(m, p);
  }

  /** One failed first write is enough: the rest of the message is written and received, and nothing is delivered. */
  lemma LosingRun(o: Order, m: Message)
    requires ToBeLost(m)
    ensures var p := Packed(m);
            IsRun(o, [Losing(m, 0), Losing(m, 1), Losing(m, 2), Losing(m, 3)],
                  [Send(Some(m.tree), m.stale, [], Failed, Error, [], []),
                   Send(None, [], [], Took(|p|), Done, p, []),
                   Recv(Came(p, []), Malformed, [])])
    ensures Losing(m, 3).got == |Packed(m)| && Losing(m, 3).sender == Outbox([], []) && Losing(m, 3).delivered == []
  {
    hide Next, Packed, ToBeLost;
    LosingSend(o, m);
    LosingRest(o, m);
    LosingRecv(o, m);
  }

  lemma ChunkOfOne(m: Message, n: nat)
    requires Sendable(m) && m.fds == []
    ensures AllSendable([m]) && ChunkFds([m], 0, n) == []
  {
    hide Sendable, Written;
    var s := Started([m], n);
    assert [m][0..s] == [] || [m][0..s] == [m];
    assert [m][1..] == [] && FdStream([m]) == [];
  }
}
