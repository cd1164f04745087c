/**
 What one call of launchd_msg_send and of launchd_msg_recv (liblaunch/liblaunch.c)
 does to its end of a connection: the relations that the methods of the connection
 meet and of which runs are made.
 */
module Protocol {
  import opened Options
  import opened LaunchData
  import opened Framing

  const BUFFER: nat := 10485760
  const FD_SLOTS: nat := 1024
  const CHUNK: nat := 8192

  /** What sendmsg answers: an error, a closed peer, or how many bytes it took. */
  datatype Answer = Failed | Closed | Took(n: nat)

  datatype Sent = Done | Again | Reset | Error | NoMemory

  /** What recvmsg answers. */
  datatype Arrival = Nothing | Hangup | Truncated | Came(bytes: seq<byte>, fds: seq<i64>)

  datatype Result = Idle | MoreNeeded | Malformed | Aborted | HungUp | Unread

  /** The bytes and descriptors accepted for sending and not yet written. */
  datatype Outbox = Outbox(unsent: seq<byte>, fds: seq<i64>)

  /** The bytes and descriptors received and not yet decoded. */
  datatype Inbox = Inbox(buf: seq<byte>, fds: seq<i64>)

  /**
   What the sender's caller and the kernel keep to: a message is given just if none is
   unfinished; the first write of a message takes at least its header, a later one at
   least a byte.
   */
  predicate CanSend(d: Option<Data>, answer: Answer, s: Outbox) {
    && (d.Some? <==> s.unsent == [])
    && (d.Some? ==> Fits(d.value) && |Fds(d.value)| <= FD_SLOTS)
    && (answer.Took? && d.Some? ==> HEADER <= answer.n <= HEADER + Size(d.value))
    && (answer.Took? && d.None? ==> 0 < answer.n <= |s.unsent|)
  }

  /** A write: `bytes` and `fds` went out of what was pending, or nothing did. */
  ghost predicate Writes(answer: Answer, header: seq<byte>, pending: Outbox,
                         r: Sent, bytes: seq<byte>, fds: seq<i64>, s': Outbox) {
    match answer
    case Failed => r == Error && bytes == [] && fds == [] && s' == pending
    case Closed => r == Reset && bytes == [] && fds == [] && s' == pending
    case Took(n) =>
      && |bytes| == n && bytes + s'.unsent == header + pending.unsent
      && fds == pending.fds && s'.fds == []
      && r == if s'.unsent == [] then Done else Again
  }

  /** launchd_msg_send, of a message packed over `stale` or, with none, of the rest of the last one. */
  ghost predicate Sends(d: Option<Data>, stale: seq<byte>, answer: Answer, s: Outbox,
                        r: Sent, bytes: seq<byte>, fds: seq<i64>, s': Outbox)
    requires d.Some? ==> Fits(d.value)
  {
    if d.None? then
      Writes(answer, [], s, r, bytes, fds, s')
    else if Size(d.value) > BUFFER then
      r == NoMemory && bytes == [] && fds == [] && s' == Outbox([], s.fds)
    else
      && |stale| == BUFFER
      && var pending := Outbox(Image(stale, 0, d.value)[..Size(d.value)], Fds(d.value));
         Writes(answer, Header(HEADER + Size(d.value)), pending, r, bytes, fds, s')
  }

  /** Nothing that could be a frame is at the front. */
  predicate NoFrame(buf: seq<byte>) {
    |buf| < HEADER || Unwire(At(buf, 0)) != MAGIC || Unwire(At(buf, 8)) <= HEADER
  }

  /**
   What the loop of launchd_msg_recv returns, has delivered and keeps.  Of a frame that the
   decoder rejects half-way nothing is said to be kept.
   */
  ghost predicate Leaves(whole: Outcome, r: Result, delivered: seq<Data>, s': Inbox) {
    && delivered == whole.delivered
    && r == (if whole.status.Drained? then Idle else if whole.status.NeedMore? then MoreNeeded else Malformed)
    && ((whole.status.BadRpc? ==> NoFrame(whole.rest)) ==> s' == Inbox(whole.rest, whole.fds))
  }

  /** launchd_msg_recv */
  ghost predicate Receives(o: Order, s: Inbox, arrival: Arrival, r: Result, delivered: seq<Data>, s': Inbox) {
    match arrival
    case Nothing => r == Unread && delivered == [] && s' == s
    case Hangup => r == HungUp && delivered == [] && s' == s
    case Truncated => r == Aborted && delivered == [] && s' == s
    case Came(bytes, fds) => Leaves(Drain(o, s.buf + bytes, s.fds + fds), r, delivered, s')
  }
}
