/**
 The stream a launchd connection carries (liblaunch/liblaunch.c): each message is a
 16-byte header and a packed tree; descriptors travel with a message's first byte.
 */
module Framing {
  import opened Lists
  import opened LaunchData
  import opened CodecRoundTrip
  import opened CodecLayout

  const MAGIC: u64 := 0xD2FEA02366B39A41
  const HEADER: nat := 16

  /**
   A message on its way: the tree packed, what its buffer held before, the descriptors
   by which the receiver knows those of the tree, and whether its first write failed.
   What remains of it is then written as the rest of a message, without a header.
   */
  datatype Message = Message(tree: Data, stale: seq<byte>, fds: seq<i64>, headless: bool)

  predicate Sendable(m: Message) {
    && Fits(m.tree) && Size(m.tree) <= |m.stale| && |m.fds| == |Fds(m.tree)|
    && HEADER + Size(m.tree) < 0x1_0000_0000_0000_0000
  }

  predicate AllSendable(ms: seq<Message>) {
    forall j :: 0 <= j < |ms| ==> Sendable(ms[j])
  }

  /** All go out with their headers. */
  predicate Headed(ms: seq<Message>) {
    forall j :: 0 <= j < |ms| ==> !ms[j].headless
  }

  function Header(len: u64): (h: seq<byte>)
    ensures |h| == HEADER
  {
    Wire(MAGIC) + Wire(len)
  }

  function Packed(m: Message): (p: seq<byte>)
    requires Sendable(m)
    ensures |p| == Size(m.tree)
  {
    Image(m.stale, 0, m.tree)[..Size(m.tree)]
  }

  function Frame(m: Message): (f: seq<byte>)
    requires Sendable(m)
    ensures |f| == HEADER + Size(m.tree)
  {
    Header(HEADER + Size(m.tree)) + Packed(m)
  }

  /** The bytes by which a message goes out. */
  function Written(m: Message): (w: seq<byte>)
    requires Sendable(m)
    ensures HEADER < |w|
  {
    if m.headless then Packed(m) else Frame(m)
  }

  function Stream(ms: seq<Message>): seq<byte>
    requires AllSendable(ms)
  {
    if ms == [] then [] else Written(ms[0]) + Stream(ms[1..])
  }

  function FdStream(ms: seq<Message>): seq<i64> {
    if ms == [] then [] else ms[0].fds + FdStream(ms[1..])
  }

  /** The tree the receiver is handed: ports named by what the sender's buffer held, descriptors as received. */
  function Received(o: Order, m: Message): Data
    requires Sendable(m)
  {
    WithFds(WithStale(o, m.stale, 0, m.tree), m.fds, 0)
  }

  /** Without ports it is the tree sent, but for the descriptors. */
  lemma ReceivedWhole(o: Order, m: Message)
    requires Sendable(m) && NoMachPorts(m.tree)
    ensures Received(o, m) == WithFds(m.tree, m.fds, 0)
  {
    NothingStale(o, m.stale, 0, m.tree);
  }

  function Trees(o: Order, ms: seq<Message>): (ts: seq<Data>)
    requires AllSendable(ms)
    ensures |ts| == |ms|
  {
    if ms == [] then [] else [Received(o, ms[0])] + Trees(o, ms[1..])
  }

  /** How many frames lie whole within the first n bytes, up to the first message without a header. */
  function Completed(ms: seq<Message>, n: nat): (c: nat)
    requires AllSendable(ms)
    ensures c <= |ms|
  {
    if ms == [] || ms[0].headless || n < |Frame(ms[0])| then 0 else 1 + Completed(ms[1..], n - |Frame(ms[0])|)
  }

  /** How many messages have their first byte within the first n bytes. */
  function Started(ms: seq<Message>, n: nat): (c: nat)
    requires AllSendable(ms)
    ensures c <= |ms|
  {
    if ms == [] || n == 0 then 0
    else if n < |Written(ms[0])| then 1
    else 1 + Started(ms[1..], n - |Written(ms[0])|)
  }

  // ---------- The receiver's loop ----------

  /** How the loop ends: nothing left, a part of a frame left, a malformed frame, or input the decoder does not cover. */
  datatype Status = Drained | NeedMore | BadRpc | WildInput

  datatype Outcome = Outcome(delivered: seq<Data>, rest: seq<byte>, fds: seq<i64>, status: Status)

  /** What launchd_msg_recv makes of the bytes and descriptors it has. */
  function Drain(o: Order, buf: seq<byte>, fds: seq<i64>): Outcome
    decreases |buf|
  {
    if buf == [] then Outcome([], [], fds, Drained)
    else if |buf| < HEADER then Outcome([], buf, fds, NeedMore)
    else
      var len := Unwire(At(buf, 8));
      if Unwire(At(buf, 0)) != MAGIC || len <= HEADER then Outcome([], buf, fds, BadRpc)
      else if |buf| < len then Outcome([], buf, fds, NeedMore)
      else
        match Parse(o, buf, HEADER, fds, 0)
        case Rejected => Outcome([], buf, fds, BadRpc)
        case Wild => Outcome([], buf, fds, WildInput)
        case Parsed(t, next, k) =>
          var more := Drain(o, buf[next..], fds[k..]);
          more.(delivered := [t] + more.delivered)
  }

  // ---------- What a frame gives ----------

  lemma {:induction false} WithFdsLocal(t: Data, fds: seq<i64>, more: seq<i64>, k: nat)
    requires k + |Fds(t)| <= |fds|
    ensures WithFds(t, fds + more, k) == WithFds(t, fds, k)
    decreases t
  {
    if t.Dictionary? || t.Array? {
      WithFdsAllLocal(t.items, fds, more, k);
    }
  }

  lemma {:induction false} WithFdsAllLocal(items: seq<Data>, fds: seq<i64>, more: seq<i64>, k: nat)
    requires k + |FdsAll(items)| <= |fds|
    ensures WithFdsAll(items, fds + more, k) == WithFdsAll(items, fds, k)
    decreases items
  {
    if items != [] {
      WithFdsLocal(items[0], fds, more, k);
      WithFdsAllLocal(items[1..], fds, more, k + |Fds(items[0])|);
    }
  }

  /** A whole frame at the front is recognised and decoded, whatever follows it. */
  lemma FrameParses(o: Order, m: Message, buf: seq<byte>, more: seq<i64>)
    requires Sendable(m) && Frame(m) <= buf
    ensures Unwire(At(buf, 0)) == MAGIC && Unwire(At(buf, 8)) == |Frame(m)|
    ensures Parse(o, buf, HEADER, m.fds + more, 0) == Parsed(Received(o, m), |Frame(m)|, |m.fds|)
  {
    hide Wire, Unwire, Parse, Image, WithStale;
    HeaderParses(m, buf);
    var r, n, fds := Image(m.stale, 0, m.tree), Size(m.tree), m.fds + more;
    RoundTrip(o, m.stale, 0, m.tree, fds, 0);
    WithFdsLocal(WithStale(o, m.stale, 0, m.tree), m.fds, more, 0);
    assert buf[HEADER..HEADER + n] == r[..n] by {
      assert buf[HEADER..HEADER + n] == Frame(m)[HEADER..];
    }
    ParseShifted(o, r, buf, HEADER, 0, fds, 0);
  }

  lemma HeaderParses(m: Message, buf: seq<byte>)
    requires Sendable(m) && |buf| >= HEADER && buf[..HEADER] == Header(HEADER + Size(m.tree))
    ensures Unwire(At(buf, 0)) == MAGIC && Unwire(At(buf, 8)) == |Frame(m)|
  {
    hide Wire, Unwire;
    var h := Header(HEADER + Size(m.tree));
    assert At(buf, 0) == h[..8] == Wire(MAGIC);
    assert At(buf, 8) == h[8..] == Wire(HEADER + Size(m.tree));
    WireRoundTrip(MAGIC);
    WireRoundTrip(HEADER + Size(m.tree));
  }

  /**
   A first tree is handed on if and only if the magic number is there, a length of more
   than the header's 16 bytes, as many bytes, and a tree laid out behind them; more are
   waited for exactly if all that is missing is bytes.
   */
  lemma HandedExactly(o: Order, buf: seq<byte>, fds: seq<i64>)
    requires 16 <= |buf|
    ensures Drain(o, buf, fds).delivered != [] <==>
            && HasWord(buf, 0, 0xD2FEA02366B39A41)
            && (exists len :: 16 < len <= |buf| && HasWord(buf, 8, len))
            && exists t :: Fits(t) && Laid(buf, 16, t, false)
    ensures (Drain(o, buf, fds).delivered == [] && Drain(o, buf, fds).status.NeedMore?) <==>
            HasWord(buf, 0, 0xD2FEA02366B39A41) && exists len :: 16 < len && |buf| < len && HasWord(buf, 8, len)
  {
    hide IsWord, Unwire, Parse, Laid, Fits;
    WordIs(buf, 0);
    WordIs(buf, 8);
    UnwireIsWord(At(buf, 0));
    UnwireIsWord(At(buf, 8));
    AcceptedExactly(o, buf, 16, fds, 0);
    assert HasWord(buf, 0, Unwire(At(buf, 0))) && HasWord(buf, 8, Unwire(At(buf, 8)));
  }

  /**
   A frame in its bytes: the magic number, the length of the whole, a multiple of
   eight, and the tree.
   */
  lemma FrameIsLaid(m: Message)
    requires Sendable(m)
    ensures var f := Frame(m);
            HasWord(f, 0, 0xD2FEA02366B39A41) && HasWord(f, 8, |f|) && |f| % 8 == 0 && Laid(f, 16, m.tree, true)
  {
    hide Wire, IsWord, Image, Laid;
    var f, r, n := Frame(m), Image(m.stale, 0, m.tree), Size(m.tree);
    WireIsWord(MAGIC);
    WireIsWord(HEADER + n);
    assert f[0..8] == Wire(MAGIC) && f[8..16] == Wire(HEADER + n);
    SizeIsAligned(m.tree);
    ImageIsLaid(m.stale, 0, m.tree);
    assert f[16..16 + n] == r[0..n];
    LaidShifted(r, f, 16, 0, m.tree, true);
  }

  /** Without its header, a message begins with the type of its tree, which is no magic number. */
  lemma NoMagic(m: Message, buf: seq<byte>)
    requires Sendable(m) && |buf| >= HEADER && buf[..HEADER] == Packed(m)[..HEADER]
    ensures Unwire(At(buf, 0)) != MAGIC
  {
    hide Wire, Unwire, Image;
    HeaderReads(m.stale, 0, m.tree);
    assert At(buf, 0) == buf[..HEADER][..8] == At(Image(m.stale, 0, m.tree), 0);
    WireRoundTrip(Tag(m.tree));
  }

  // ---------- The stream ----------

  lemma {:induction false} StreamSplits(o: Order, ms: seq<Message>, c: nat)
    requires AllSendable(ms) && c <= |ms|
    ensures Stream(ms) == Stream(ms[..c]) + Stream(ms[c..])
    ensures FdStream(ms) == FdStream(ms[..c]) + FdStream(ms[c..])
    ensures Trees(o, ms) == Trees(o, ms[..c]) + Trees(o, ms[c..])
  {
    hide Written, Sendable, Received;
    if c == 0 {
      assert ms[..c] == [] && ms[c..] == ms;
    } else {
      StreamSplits(o, ms[1..], c - 1);
      assert ms[..c][1..] == ms[1..][..c - 1] && ms[c..] == ms[1..][c - 1..] && ms[..c][0] == ms[0];
      Assoc(Written(ms[0]), Stream(ms[1..][..c - 1]), Stream(ms[c..]));
      Assoc(ms[0].fds, FdStream(ms[1..][..c - 1]), FdStream(ms[c..]));
      Assoc([Received(o, ms[0])], Trees(o, ms[1..][..c - 1]), Trees(o, ms[c..]));
    }
  }

  /** Less than a frame: the loop waits for more. */
  lemma PartialFrame(o: Order, m: Message, buf: seq<byte>, fds: seq<i64>)
    requires Sendable(m) && 0 < |buf| < |Frame(m)| && buf == Frame(m)[..|buf|]
    ensures Drain(o, buf, fds) == Outcome([], buf, fds, NeedMore)
  {
    hide Wire, Unwire, Parse, Packed;
    if HEADER <= |buf| {
      assert buf[..HEADER] == Frame(m)[..HEADER] == Header(HEADER + Size(m.tree));
      HeaderParses(m, buf);
    }
  }

  /** A message without its header: the loop reports it once it could have been one, and keeps it. */
  lemma HeadlessFrame(o: Order, m: Message, buf: seq<byte>, fds: seq<i64>)
    requires Sendable(m) && buf != []
    requires |buf| >= HEADER ==> buf[..HEADER] == Packed(m)[..HEADER]
    ensures Drain(o, buf, fds) == Outcome([], buf, fds, if |buf| < HEADER then NeedMore else BadRpc)
  {
    hide Wire, Unwire, Parse, Packed;
    if HEADER <= |buf| {
      NoMagic(m, buf);
    }
  }

  /** A whole frame: the loop delivers its tree and goes on with what follows. */
  lemma WholeFrame(o: Order, m: Message, after: seq<byte>, more: seq<i64>)
    requires Sendable(m)
    ensures var next := Drain(o, after, more);
            Drain(o, Frame(m) + after, m.fds + more)
            == next.(delivered := [Received(o, m)] + next.delivered)
  {
    hide Wire, Unwire, Parse, Packed, Received;
    var buf, fds := Frame(m) + after, m.fds + more;
    FrameParses(o, m, buf, more);
    assert buf[|Frame(m)|..] == after && fds[|m.fds|..] == more;
  }

  /** Behind whole frames, a message without its header: the frames are delivered, the message is reported and kept. */
  lemma {:induction false} HeaderLost(o: Order, ms: seq<Message>, m: Message, fds: seq<i64>)
    requires AllSendable(ms) && Headed(ms) && Sendable(m)
    ensures Drain(o, Stream(ms) + Packed(m), FdStream(ms) + fds) == Outcome(Trees(o, ms), Packed(m), fds, BadRpc)
  {
    hide Frame, Packed, Sendable, Received, Drain;
    if ms == [] {
      assert [] + Packed(m) == Packed(m) && [] + fds == fds;
      HeadlessFrame(o, m, Packed(m), fds);
    } else {
      var tail := ms[1..];
      HeaderLost(o, tail, m, fds);
      WholeFrame(o, ms[0], Stream(tail) + Packed(m), FdStream(tail) + fds);
      Assoc(Frame(ms[0]), Stream(tail), Packed(m));
      Assoc(ms[0].fds, FdStream(tail), fds);
    }
  }

  lemma EmptyStream(o: Order, ms: seq<Message>)
    requires AllSendable(ms)
    ensures ms != [] ==> Stream(ms) == Written(ms[0]) + Stream(ms[1..]) && ms[..1] == [ms[0]]
    ensures FdStream([]) == [] && Trees(o, []) == [] && Stream([]) == []
    ensures ms != [] ==> FdStream(ms[..1]) == ms[0].fds
  {
    if ms != [] {
      assert ms[..1][1..] == [];
    }
  }

  /** How the loop stands on the bytes it keeps: those of `ms`, from the first message not delivered on. */
  function Left(ms: seq<Message>, rest: seq<byte>): Status {
    if rest == [] then Drained
    else if ms != [] && ms[0].headless && HEADER <= |rest| then BadRpc
    else NeedMore
  }

  /**
   The loop on a prefix of a stream delivers the frames completed, in order, and keeps
   exactly the bytes and descriptors after them.  It reports a malformed frame just if
   they are those of a message without its header, 16 bytes of it or more.
   */
  lemma {:induction false} DrainStream(o: Order, ms: seq<Message>, n: nat)
    requires AllSendable(ms) && n <= |Stream(ms)|
    ensures
      var c := Completed(ms, n);
      && |Stream(ms[..c])| <= n && c <= Started(ms, n)
      && var rest := Stream(ms)[|Stream(ms[..c])|..n];
      Drain(o, Stream(ms)[..n], FdStream(ms[..Started(ms, n)]))
      == Outcome(Trees(o, ms[..c]), rest, FdStream(ms[c..Started(ms, n)]), Left(ms[c..], rest))
    decreases |ms|
  {
    hide Frame, Written, Parse, Drain, Received, Sendable, Stream, FdStream, Trees;
    var buf := Stream(ms)[..n];
    EmptyStream(o, ms);
    if n == 0 || ms == [] {
      DrainNothing(o);
      assert ms[..0] == [] && ms[0..0] == [] && Stream(ms)[..n] == [] && Stream(ms)[0..n] == [];
    } else if ms[0].headless || n < |Frame(ms[0])| {
      UnfinishedFront(o, ms, n);
    } else {
      var m, tail, n' := ms[0], ms[1..], n - |Frame(ms[0])|;
      assert Written(m) == Frame(m) by { ByFrame(m); }
      var c, s := Completed(tail, n'), Started(tail, n');
      DrainStream(o, tail, n');
      WholeFrame(o, m, Stream(tail)[..n'], FdStream(tail[..s]));
      AfterFrame(o, ms, n, c, s);
      assert ms[1 + c..] == tail[c..];
    }
  }

  lemma ByFrame(m: Message)
    requires Sendable(m)
    ensures Written(m) == if m.headless then Packed(m) else Frame(m)
  {
  }

  /** The front message is not whole, or has no header: all is kept. */
  lemma UnfinishedFront(o: Order, ms: seq<Message>, n: nat)
    requires AllSendable(ms) && ms != [] && 0 < n <= |Stream(ms)| && (ms[0].headless || n < |Frame(ms[0])|)
    ensures
      var s := Started(ms, n);
      && Completed(ms, n) == 0 && 0 < s && Stream(ms[..0]) == [] && Trees(o, ms[..0]) == [] && ms[0..s] == ms[..s] && ms[0..] == ms
      && Stream(ms)[0..n] == Stream(ms)[..n]
      && Drain(o, Stream(ms)[..n], FdStream(ms[..s]))
         == Outcome([], Stream(ms)[..n], FdStream(ms[..s]), Left(ms, Stream(ms)[..n]))
  {
    hide Frame, Packed, Drain, Received, Sendable, FdStream;
    var m, buf, s := ms[0], Stream(ms)[..n], Started(ms, n);
    EmptyStream(o, ms);
    if m.headless {
      assert n >= HEADER ==> buf[..HEADER] == Packed(m)[..HEADER];
      HeadlessFrame(o, m, buf, FdStream(ms[..s]));
    } else {
      assert buf == Frame(m)[..n];
      PartialFrame(o, m, buf, FdStream(ms[..s]));
    }
  }

  /** A stream and its parts, with the first frame taken off. */
  lemma AfterFrame(o: Order, ms: seq<Message>, n: nat, c: nat, s: nat)
    requires AllSendable(ms) && ms != [] && |Written(ms[0])| <= n <= |Stream(ms)| && c <= s < |ms|
    requires |Stream(ms[1..][..c])| <= n - |Written(ms[0])|
    ensures
      var m, tail, n' := ms[0], ms[1..], n - |Written(ms[0])|;
      && n' <= |Stream(tail)|
      && Stream(ms)[..n] == Written(m) + Stream(tail)[..n']
      && FdStream(ms[..1 + s]) == m.fds + FdStream(tail[..s])
      && Trees(o, ms[..1 + c]) == [Received(o, m)] + Trees(o, tail[..c])
      && |Stream(ms[..1 + c])| == |Written(m)| + |Stream(tail[..c])|
      && Stream(ms)[|Stream(ms[..1 + c])|..n] == Stream(tail)[|Stream(tail[..c])|..n']
      && ms[1 + c..1 + s] == tail[c..s]
  {
    hide Written, Sendable, Received;
    var tail := ms[1..];
    Chop(ms, c);
    Chop(ms, s);
    SplitFront(Written(ms[0]), Stream(tail), |Stream(tail[..c])|, n);
  }

  lemma Chop(ms: seq<Message>, c: nat)
    requires c < |ms|
    ensures ms[..1 + c][1..] == ms[1..][..c] && ms[..1 + c][0] == ms[0] && |ms[..1 + c]| == 1 + c
  {
  }

  lemma SplitFront(f: seq<byte>, rest: seq<byte>, i: nat, n: nat)
    requires |f| + i <= n <= |f| + |rest|
    ensures (f + rest)[..n] == f + rest[..n - |f|]
    ensures (f + rest)[|f| + i..n] == rest[i..n - |f|]
  {
  }

  lemma DrainNothing(o: Order)
    ensures Drain(o, [], []) == Outcome([], [], [], Drained)
  {
  }
}
