/**
 A launchd connection (liblaunch/liblaunch.c): launchd_msg_send and launchd_msg_recv
 over its buffers.
 */
module Connection {
  import opened Options
  import opened LaunchData
  import CodecRoundTrip
  import opened CodecPack
  import opened CodecUnpack
  import opened Framing
  import opened Protocol

  /** One pass of the receiver's loop: too few bytes, a malformed frame, or a tree handed to the callback. */
  datatype Pass = Waiting | Bad | Handed

  /** What the callback is given: a node in memory. */
  datatype Call = Call(node: nat, hi: nat, memory: seq<byte>)

  /** memmove of n bytes to the front. */
  method MoveToFront(buf: array<byte>, from: nat, n: nat)
    requires from + n <= buf.Length
    modifies buf
    ensures buf[..n] == old(buf[from..from + n])
  {
    for j := 0 to n
      invariant buf[..j] == old(buf[from..from + j])
      invariant forall i :: j <= i < buf.Length ==> buf[i] == old(buf[i])
    {
      buf[j] := buf[from + j];
    }
  }

  /** Each call gets a node at which its tree lies in memory. */
  predicate Given(o: Order, base: nat, calls: seq<Call>, delivered: seq<Data>) {
    && |calls| == |delivered|
    && forall j :: 0 <= j < |calls| ==> Holds(o, base, calls[j].memory, calls[j].node, calls[j].hi, delivered[j])
  }

  lemma GivenOne(o: Order, base: nat, calls: seq<Call>, delivered: seq<Data>, call: Call, tree: Data)
    requires Given(o, base, calls, delivered) && Holds(o, base, call.memory, call.node, call.hi, tree)
    ensures Given(o, base, calls + [call], delivered + [tree])
  {
    hide Holds;
  }

  class Launch {
    var sendbuf: array<byte>
    var sendlen: nat
    var sendfds: seq<i64>
    var recvbuf: array<byte>
    var recvlen: nat
    var recvfds: seq<i64>

    ghost predicate Valid()
      reads this
    {
      sendlen <= sendbuf.Length && recvlen <= recvbuf.Length && sendbuf != recvbuf
    }

    ghost function Unsent(): seq<byte>
      requires Valid()
      reads this, sendbuf
    {
      sendbuf[..sendlen]
    }

    ghost function Held(): seq<byte>
      requires Valid()
      reads this, recvbuf
    {
      recvbuf[..recvlen]
    }

    ghost function Out(): Outbox
      requires Valid()
      reads this, sendbuf
    {
      Outbox(Unsent(), sendfds)
    }

    ghost function In(): Inbox
      requires Valid()
      reads this, recvbuf
    {
      Inbox(Held(), recvfds)
    }

    /** launchd_fdopen, as to the buffers. */
    constructor ()
      ensures Valid() && Out() == Outbox([], []) && In() == Inbox([], [])
      ensures fresh(sendbuf) && fresh(recvbuf)
    {
      sendbuf, sendlen, sendfds := new byte[0], 0, [];
      recvbuf, recvlen, recvfds := new byte[0], 0, [];
    }

    /** Packs a message into a new send buffer; `stale` is what the allocator left in it. */
    method Accept(t: Data) returns (ok: bool, ghost stale: seq<byte>)
      requires Valid() && sendlen == 0 && Fits(t) && |Fds(t)| <= FD_SLOTS
      modifies this`sendbuf, this`sendlen, this`sendfds
      ensures Valid() && fresh(sendbuf) && (ok <==> Size(t) <= BUFFER)
      ensures |stale| == BUFFER
      ensures ok ==> Unsent() == Image(stale, 0, t)[..Size(t)] && sendlen == Size(t) && sendfds == Fds(t)
      ensures !ok ==> sendlen == 0 && sendfds == old(sendfds)
      ensures In() == old(In())
    {
      hide Image;
      sendbuf := new byte[BUFFER];
      stale := sendbuf[..];
      var slots := new i64[FD_SLOTS];
      var size, cnt := Pack(t, sendbuf, 0, BUFFER, slots, 0);
      sendlen, ok := size, size != 0;
      if ok {
        sendfds := slots[..cnt];
        assert slots[0..cnt] == slots[..cnt];
      }
    }

    /**
     The sendmsg of launchd_msg_send and what follows it: the bytes taken leave the
     buffer, the descriptors go with the first of them.
     */
    method Write(header: seq<byte>, answer: Answer) returns (r: Sent, ghost bytes: seq<byte>, ghost fds: seq<i64>)
      requires Valid() && (answer.Took? ==> |header| <= answer.n <= |header| + sendlen)
      modifies this`sendbuf, this`sendlen, this`sendfds, sendbuf
      ensures Valid() && Writes(answer, header, old(Out()), r, bytes, fds, Out())
      ensures In() == old(In())
    {
      match answer
      case Failed =>
        return Error, [], [];
      case Closed =>
        return Reset, [], [];
      case Took(n) =>
        ghost var pending := Unsent();
        bytes := (header + pending)[..n];
        fds := sendfds;
        var taken := n - |header|;
        sendlen := sendlen - taken;
        if sendlen > 0 {
          MoveToFront(sendbuf, taken, sendlen);
        } else {
          sendbuf := new byte[0];
        }
        assert Unsent() == pending[taken..];
        SplitAt(header, pending, n);
        sendfds := [];
        r := if sendlen > 0 then Again else Done;
    }

    /**
     launchd_msg_send, of a message or, with none, of the rest of the last one.  The
     first write of a message takes at least its header.
     */
    method MsgSend(d: Option<Data>, answer: Answer)
      returns (r: Sent, ghost stale: seq<byte>, ghost bytes: seq<byte>, ghost fds: seq<i64>)
      requires Valid() && CanSend(d, answer, Out())
      modifies this`sendbuf, this`sendlen, this`sendfds, sendbuf
      ensures Valid() && Sends(d, stale, answer, old(Out()), r, bytes, fds, Out())
      ensures In() == old(In())
    {
      hide Image, Header, Fits, Size, Fds, Writes;
      stale := seq(BUFFER, _ => 0);
      var header := [];
      if d.Some? {
        var ok;
        ok, stale := Accept(d.value);
        if !ok {
          assert Out() == Outbox([], old(sendfds));
          return NoMemory, stale, [], [];
        }
        header := Header(HEADER + sendlen);
      }
      r, bytes, fds := Write(header, answer);
    }

    /**
     launchd_msg_recv: takes what came, then decodes in place and hands on one frame
     after another.  `base` is the address of the receive buffer.
     */
    method MsgRecv(o: Order, base: nat, arrival: Arrival)
      returns (r: Result, ghost delivered: seq<Data>, ghost calls: seq<Call>)
      requires Valid() && base + recvlen + CHUNK < 0x1_0000_0000_0000_0000
      requires arrival.Came? ==> 0 < |arrival.bytes| <= CHUNK
      requires arrival.Came? ==> !Drain(o, Held() + arrival.bytes, recvfds + arrival.fds).status.WildInput?
      modifies this`recvbuf, this`recvlen, this`recvfds
      ensures Valid() && Receives(o, old(In()), arrival, r, delivered, In())
      ensures Out() == old(Out())
      ensures Given(o, base, calls, delivered)
    {
      hide Drain, NoFrame, Holds;
      delivered, calls := [], [];
      Grow();
      if arrival == Nothing {
        r := Unread;
      } else if arrival == Hangup {
        r := HungUp;
      } else if arrival == Truncated {
        r := Aborted;
      } else {
        ghost var all := Held() + arrival.bytes;
        Store(recvbuf, recvlen, arrival.bytes);
        recvlen := recvlen + |arrival.bytes|;
        assert Held() == all;
        recvfds := recvfds + arrival.fds;
        r, delivered, calls := HandOn(o, base);
      }
    }

    /** The loop of launchd_msg_recv over what it holds. */
    method HandOn(o: Order, base: nat) returns (r: Result, ghost delivered: seq<Data>, ghost calls: seq<Call>)
      requires Valid() && base + recvbuf.Length < 0x1_0000_0000_0000_0000
      requires !Drain(o, Held(), recvfds).status.WildInput?
      modifies this`recvbuf, this`recvlen, this`recvfds, recvbuf
      ensures Valid() && (recvbuf == old(recvbuf) || fresh(recvbuf))
      ensures Leaves(Drain(o, old(Held()), old(recvfds)), r, delivered, In())
      ensures Given(o, base, calls, delivered)
    {
      delivered, calls := [], [];
      assert Given(o, base, [], []);
      hide Drain, Holds, Parse, Decoded, NoFrame, Given, Leaves;
      ghost var whole := Drain(o, Held(), recvfds);
      ghost var buffer := recvbuf;
      while recvlen > 0
        invariant Valid() && (recvbuf == buffer || (fresh(recvbuf) && recvlen == 0))
        invariant Continues(whole, delivered, Drain(o, Held(), recvfds))
        invariant Given(o, base, calls, delivered)
        decreases recvlen
      {
        ghost var before := Drain(o, Held(), recvfds);
        var outcome;
        ghost var tree, call;
        outcome, tree, call := NextFrame(o, base);
        if outcome == Waiting {
          LeavesOff(whole, delivered, before, MoreNeeded, In());
          return MoreNeeded, delivered, calls;
        } else if outcome == Bad {
          LeavesOff(whole, delivered, before, Malformed, In());
          return Malformed, delivered, calls;
        }
        ContinuesOn(whole, delivered, before, tree, Drain(o, Held(), recvfds));
        GivenOne(o, base, calls, delivered, call, tree);
        delivered, calls := delivered + [tree], calls + [call];
      }
      assert Held() == [];
      DrainCases(o, [], recvfds);
      LeavesOff(whole, delivered, Drain(o, [], recvfds), Idle, In());
      r := Idle;
    }

    /** One pass of that loop: the frame at the front of the buffer. */
    method NextFrame(o: Order, base: nat) returns (outcome: Pass, ghost tree: Data, ghost call: Call)
      requires Valid() && 0 < recvlen && base + recvbuf.Length < 0x1_0000_0000_0000_0000
      requires !Drain(o, Held(), recvfds).status.WildInput?
      modifies this`recvbuf, this`recvlen, this`recvfds, recvbuf
      ensures Valid() && (recvbuf == old(recvbuf) || (fresh(recvbuf) && recvlen == 0))
      ensures outcome == Waiting ==> Drain(o, old(Held()), old(recvfds)) == Outcome([], Held(), recvfds, NeedMore)
      ensures outcome == Bad ==> Drain(o, old(Held()), old(recvfds)) == Outcome([], old(Held()), old(recvfds), BadRpc)
      ensures outcome == Bad && NoFrame(old(Held())) ==> In() == old(In())
      ensures outcome == Handed ==>
        Continues(Drain(o, old(Held()), old(recvfds)), [tree], Drain(o, Held(), recvfds))
      ensures outcome == Handed ==> recvlen < old(recvlen) && Holds(o, base, call.memory, call.node, call.hi, tree)
    {
      hide Drain, Holds, Parse, Decoded, Unwire;
      ghost var held := Held();
      tree, call := Errno(0), Call(0, 0, []);
      DrainCases(o, held, recvfds);
      if recvlen < HEADER {
        return Waiting, tree, call;
      }
      var magic := Unwire(recvbuf[0..8]);
      var len: nat := Unwire(recvbuf[8..16]);
      assert At(held, 0) == recvbuf[0..8] && At(held, 8) == recvbuf[8..16];
      if magic != MAGIC || len <= HEADER {
        return Bad, tree, call;
      }
      if recvlen < len {
        return Waiting, tree, call;
      }
      ghost var b0, fds0 := recvbuf[..], recvfds;
      assert b0[..recvlen] == held;
      var node, offset, k := Unpack(o, base, recvbuf, recvlen, recvfds, HEADER, 0);
      DecodedMeans(o, base, b0, recvbuf[..], recvlen, recvfds, HEADER, 0, node, offset, k);
      if node == None {
        return Bad, tree, call;
      }
      tree := Parse(o, held, HEADER, recvfds, 0).value;
      call := Call(node.value, offset, recvbuf[..]);
      assert recvbuf[offset..recvlen] == held[offset..];
      recvlen := recvlen - offset;
      if recvlen > 0 {
        MoveToFront(recvbuf, offset, recvlen);
      } else {
        recvbuf := new byte[0];
      }
      assert Held() == held[offset..];
      recvfds := recvfds[k..];
      outcome := Handed;
    }

    /** reallocf of the receive buffer: room for another chunk behind what is held. */
    method Grow()
      requires Valid()
      modifies this`recvbuf
      ensures Valid() && fresh(recvbuf) && recvbuf.Length == recvlen + CHUNK && Held() == old(Held())
    {
      var buf, n := recvbuf, recvlen;
      var bigger := new byte[n + CHUNK];
      for j := 0 to n
        invariant bigger[..j] == buf[..j]
      {
        bigger[j] := buf[j];
      }
      recvbuf := bigger;
    }
  }

  lemma SplitAt(a: seq<byte>, b: seq<byte>, n: nat)
    requires |a| <= n <= |a| + |b|
    ensures (a + b)[..n] + b[n - |a|..] == a + b
  {
  }

  /** What the whole loop gives, from what it has given so far and what the rest gives. */
  ghost predicate Continues(whole: Outcome, delivered: seq<Data>, rest: Outcome) {
    whole == rest.(delivered := delivered + rest.delivered)
  }

  lemma ContinuesOn(whole: Outcome, delivered: seq<Data>, rest: Outcome, t: Data, after: Outcome)
    requires Continues(whole, delivered, rest) && Continues(rest, [t], after)
    ensures Continues(whole, delivered + [t], after)
  {
    assert delivered + ([t] + after.delivered) == (delivered + [t]) + after.delivered;
  }

  lemma LeavesOff(whole: Outcome, delivered: seq<Data>, rest: Outcome, r: Result, s': Inbox)
    requires Continues(whole, delivered, rest) && Leaves(rest, r, [], s')
    ensures Leaves(whole, r, delivered, s')
  {
    hide NoFrame;
  }

  /** The cases of the loop's body. */
  lemma DrainCases(o: Order, buf: seq<byte>, fds: seq<i64>)
    ensures buf == [] ==> Drain(o, buf, fds) == Outcome([], [], fds, Drained)
    ensures 0 < |buf| < HEADER ==> Drain(o, buf, fds) == Outcome([], buf, fds, NeedMore)
    ensures HEADER <= |buf| && (Unwire(At(buf, 0)) != MAGIC || Unwire(At(buf, 8)) <= HEADER) ==>
      Drain(o, buf, fds) == Outcome([], buf, fds, BadRpc)
    ensures HEADER <= |buf| && Unwire(At(buf, 0)) == MAGIC && HEADER < Unwire(At(buf, 8)) && |buf| < Unwire(At(buf, 8)) ==>
      Drain(o, buf, fds) == Outcome([], buf, fds, NeedMore)
    ensures HEADER <= |buf| && Unwire(At(buf, 0)) == MAGIC && HEADER < Unwire(At(buf, 8)) <= |buf| ==>
      Delivers(o, buf, fds, Parse(o, buf, HEADER, fds, 0))
  {
    hide Unwire, Parse;
  }

  /** A whole frame: rejected, or delivered and the loop goes on behind it. */
  ghost predicate Delivers(o: Order, buf: seq<byte>, fds: seq<i64>, p: Parsed<Data>) {
    && (p.Rejected? ==> Drain(o, buf, fds) == Outcome([], buf, fds, BadRpc))
    && (p.Wild? ==> Drain(o, buf, fds) == Outcome([], buf, fds, WildInput))
    && (p.Parsed? ==> p.next <= |buf| && p.k <= |fds|)
    && (p.Parsed? ==> Continues(Drain(o, buf, fds), [p.value], Drain(o, buf[p.next..], fds[p.k..])))
  }

  lemma DecodedMeans(o: Order, base: nat, b: seq<byte>, b': seq<byte>, size: nat, fds: seq<i64>, off: nat, k: nat,
                     node: Option<nat>, off': nat, k': nat)
    requires Decoded(o, base, b, b', size, fds, off, k, node, off', k')
    ensures |b'| == |b| && off <= size <= |b|
    ensures var p := Parse(o, b[..size], off, fds, k);
            if node.Some? then
              && p == Parsed(p.value, off', k') && node.value == off && Holds(o, base, b', off, off', p.value)
              && off' <= size && b'[off'..size] == b[..size][off'..]
            else p.Rejected?
  {
    hide Parse, Holds;
    var p := Parse(o, b[..size], off, fds, k);
    if p.Parsed? {
      CodecRoundTrip.SamePart(b, b', off', |b|, off', size);
      SlicePrefix(b, size, off', size);
    }
  }
}
