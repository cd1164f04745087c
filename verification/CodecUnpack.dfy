/**
 launch_data_unpack, which turns the bytes of a message in place into the decoded tree:
 it returns what parsing the original bytes gives, and never writes past what it read.
 */
module CodecUnpack {
  import opened Options
  import opened LaunchData
  import opened CodecRoundTrip
  import opened CodecPack
  import opened CodecLayout

  /**
   The node at r, in the machine's byte order and with pointers that are addresses,
   stands for the tree, and all of it lies in memory from r up to hi.
   */
  predicate Holds(o: Order, base: nat, m: seq<byte>, r: nat, hi: nat, t: Data)
    decreases t, 0
  {
    && r + NODE <= hi <= |m|
    && Unhost(o, At(m, r)) == Tag(t)
    && match t
       case Dictionary(items) => HoldsItems(o, base, m, r, hi, items)
       case Array(items) => HoldsItems(o, base, m, r, hi, items)
       case String(s) => HoldsBytes(o, base, m, r, hi, s)
       case Opaque(s) => HoldsBytes(o, base, m, r, hi, s)
       case Fd(fd) => Signed(Unhost(o, At(m, r + 8))) == fd
       case Integer(n) => Signed(Unhost(o, At(m, r + 8))) == n
       case Real(bits) => Unhost(o, At(m, r + 8)) == bits
       case Bool(v) => Unhost(o, At(m, r + 8)) == v
       case Errno(e) => Unhost(o, At(m, r + 8)) == e
       case MachPort(port) => Unhost(o, At(m, r + 8)) == port
  }

  predicate HoldsItems(o: Order, base: nat, m: seq<byte>, r: nat, hi: nat, items: seq<Data>)
    requires r + NODE <= hi <= |m|
    decreases items, 1
  {
    && Unhost(o, At(m, r + 8)) == base + r + NODE
    && Unhost(o, At(m, r + 16)) == |items|
    && HoldsSlots(o, base, m, r + NODE, r + NODE + 8 * |items|, hi, items)
  }

  /** The pointers from `slots` on lead to nodes, from lo on, that hold the items. */
  predicate HoldsSlots(o: Order, base: nat, m: seq<byte>, slots: nat, lo: nat, hi: nat, items: seq<Data>)
    decreases items, 0
  {
    && slots + 8 * |items| <= lo <= hi <= |m|
    && forall j :: 0 <= j < |items| ==> HoldsSlot(o, base, m, slots + 8 * j, lo, hi, items[j])
  }

  predicate HoldsSlot(o: Order, base: nat, m: seq<byte>, slot: nat, lo: nat, hi: nat, t: Data)
    decreases t, 1
  {
    && slot + 8 <= |m|
    && var p := Unhost(o, At(m, slot));
    base + lo <= p && Holds(o, base, m, p - base, hi, t)
  }

  predicate HoldsBytes(o: Order, base: nat, m: seq<byte>, r: nat, hi: nat, s: seq<byte>)
    requires r + NODE <= hi <= |m|
  {
    var p := Unhost(o, At(m, r + 8));
    Unhost(o, At(m, r + 16)) == |s| && base + r <= p && p - base + |s| <= hi && m[p - base..p - base + |s|] == s
  }

  /** The second word of a node is the address of the bytes at place p. */
  predicate HasPointer(base: nat, m: seq<byte>, r: nat, p: nat, s: seq<byte>) {
    HasWord(m, r + 8, base + p) && p + |s| <= |m| && m[p..p + |s|] == s
  }

  /**
   A decoded node on a little-endian machine, word by word: the type, then a number or
   the address of what follows, then a count.
   */
  lemma HeldWords(base: nat, m: seq<byte>, r: nat, hi: nat, t: Data)
    requires Holds(LittleEndian, base, m, r, hi, t)
    ensures HasWord(m, r, Tag(t))
    ensures t.Dictionary? || t.Array? ==> HasWord(m, r + 8, base + r + 24) && HasWord(m, r + 16, |t.items|)
    ensures t.Integer? ==> HasWord(m, r + 8, if 0 <= t.number then t.number else t.number + 0x1_0000_0000_0000_0000)
    ensures t.Fd? ==> HasWord(m, r + 8, if 0 <= t.fd then t.fd else t.fd + 0x1_0000_0000_0000_0000)
    ensures t.Real? ==> HasWord(m, r + 8, t.bits)
    ensures t.Bool? ==> HasWord(m, r + 8, t.truth)
    ensures t.Errno? ==> HasWord(m, r + 8, t.err)
    ensures t.MachPort? ==> HasWord(m, r + 8, t.port)
    ensures t.String? ==> HasWord(m, r + 16, |t.chars|) && exists p: nat :: HasPointer(base, m, r, p, t.chars)
    ensures t.Opaque? ==> HasWord(m, r + 16, |t.bytes|) && exists p: nat :: HasPointer(base, m, r, p, t.bytes)
  {
    hide IsWord, HoldsSlots, Unhost, Signed, Tag;
    UnhostIsWord(At(m, r));
    UnhostIsWord(At(m, r + 8));
    UnhostIsWord(At(m, r + 16));
    SignedWord(Unhost(LittleEndian, At(m, r + 8)));
    if t.String? || t.Opaque? {
      var p: nat := Unhost(LittleEndian, At(m, r + 8)) - base;
      assert HasPointer(base, m, r, p, if t.String? then t.chars else t.bytes);
    }
  }

  /** What a node holds depends on its own part of memory only. */
  lemma {:induction false} HoldsKept(o: Order, base: nat, m: seq<byte>, m': seq<byte>, r: nat, hi: nat, hi': nat, t: Data)
    requires Holds(o, base, m, r, hi, t) && hi <= hi' <= |m'| && Same(m, m', r, hi)
    ensures Holds(o, base, m', r, hi', t)
    decreases t
  {
    hide Unhost, Same, HoldsSlots, HoldsBytes;
    SamePart(m, m', r, hi, r, r + 8);
    SamePart(m, m', r, hi, r + 8, r + 16);
    SamePart(m, m', r, hi, r + 16, r + 24);
    if t.Dictionary? || t.Array? {
      SlotsBound(o, base, m, r + NODE, r + NODE + 8 * |t.items|, hi, t.items);
      SameFrom(m, m', r, r + NODE, hi);
      SameFrom(m, m', r + NODE, r + NODE + 8 * |t.items|, hi);
      SlotsKept(o, base, m, m', r + NODE, r + NODE + 8 * |t.items|, hi, hi', t.items);
    } else if t.String? {
      BytesKept(o, base, m, m', r, hi, hi', t.chars);
    } else if t.Opaque? {
      BytesKept(o, base, m, m', r, hi, hi', t.bytes);
    }
  }

  lemma SlotsBound(o: Order, base: nat, m: seq<byte>, slots: nat, lo: nat, hi: nat, items: seq<Data>)
    requires HoldsSlots(o, base, m, slots, lo, hi, items)
    ensures slots + 8 * |items| <= lo <= hi <= |m|
  {
  }

  lemma BytesKept(o: Order, base: nat, m: seq<byte>, m': seq<byte>, r: nat, hi: nat, hi': nat, s: seq<byte>)
    requires r + NODE <= hi <= |m| && HoldsBytes(o, base, m, r, hi, s) && hi <= hi' <= |m'| && Same(m, m', r, hi)
    ensures HoldsBytes(o, base, m', r, hi', s)
  {
    hide Unhost, Same;
    SamePart(m, m', r, hi, r + 8, r + 16);
    SamePart(m, m', r, hi, r + 16, r + 24);
    var p := Unhost(o, At(m, r + 8)) - base;
    SamePart(m, m', r, hi, p, p + |s|);
  }

  lemma {:induction false} SlotsKept(o: Order, base: nat, m: seq<byte>, m': seq<byte>, slots: nat, lo: nat, hi: nat, hi': nat, items: seq<Data>)
    requires HoldsSlots(o, base, m, slots, lo, hi, items) && hi <= hi' <= |m'|
    requires Same(m, m', slots, slots + 8 * |items|) && Same(m, m', lo, hi)
    ensures HoldsSlots(o, base, m', slots, lo, hi', items)
    decreases items
  {
    hide Unhost, Same, Holds;
    forall j | 0 <= j < |items| ensures HoldsSlot(o, base, m', slots + 8 * j, lo, hi', items[j]) {
      SamePart(m, m', slots, slots + 8 * |items|, slots + 8 * j, slots + 8 * j + 8);
      assert items[j] in items;
      assert HoldsSlot(o, base, m, slots + 8 * j, lo, hi, items[j]);
      var p := Unhost(o, At(m, slots + 8 * j)) - base;
      HoldsWithin(o, base, m, p, hi, items[j]);
      SameFrom(m, m', lo, p, hi);
      HoldsKept(o, base, m, m', p, hi, hi', items[j]);
    }
  }

  lemma SlotsGrow(o: Order, base: nat, m: seq<byte>, slots: nat, lo: nat, hi: nat, items: seq<Data>, t: Data)
    requires HoldsSlots(o, base, m, slots, lo, hi, items) && slots + 8 * |items| + 8 <= lo
    requires HoldsSlot(o, base, m, slots + 8 * |items|, lo, hi, t)
    ensures HoldsSlots(o, base, m, slots, lo, hi, items + [t])
  {
    hide HoldsSlot;
    var all := items + [t];
    forall j | 0 <= j < |all| ensures HoldsSlot(o, base, m, slots + 8 * j, lo, hi, all[j]) {
      if j < |items| {
        assert all[j] == items[j];
      }
    }
  }

  lemma HoldsWithin(o: Order, base: nat, m: seq<byte>, r: nat, hi: nat, t: Data)
    requires Holds(o, base, m, r, hi, t)
    ensures r <= hi <= |m|
  {
  }

  // ---------- Parsing looks only ahead ----------

  lemma {:induction false} ParseAhead(o: Order, b: seq<byte>, b': seq<byte>, at: nat, fds: seq<i64>, k: nat)
    requires at <= |b| == |b'| && Same(b, b', at, |b|)
    ensures Parse(o, b', at, fds, k) == Parse(o, b, at, fds, k)
    decreases |b| - at, 0
  {
    hide Wire, Unwire, Unhost, Same, ParseAll, Round, Signed, Unsigned;
    if |b| - at >= NODE {
      SamePart(b, b', at, |b|, at, at + 8);
      SamePart(b, b', at, |b|, at + 8, at + 16);
      SamePart(b, b', at, |b|, at + 16, at + 24);
      var tag := Unwire(At(b, at));
      var count: nat := Unwire(At(b, at + 16));
      if at + NODE + 8 * count <= |b| {
        SameFrom(b, b', at, at + NODE + 8 * count, |b|);
        ParseAllAhead(o, b, b', count, at + NODE + 8 * count, fds, k);
      }
      if at + NODE + count <= |b| {
        SamePart(b, b', at, |b|, at + NODE, at + NODE + count);
      }
    }
  }

  lemma {:induction false} ParseAllAhead(o: Order, b: seq<byte>, b': seq<byte>, n: nat, at: nat, fds: seq<i64>, k: nat)
    requires at <= |b| == |b'| && Same(b, b', at, |b|)
    ensures ParseAll(o, b', n, at, fds, k) == ParseAll(o, b, n, at, fds, k)
    decreases |b| - at, n + 1
  {
    hide Same, Parse;
    if n > 0 {
      ParseAhead(o, b, b', at, fds, k);
      var head := Parse(o, b, at, fds, k);
      if head.Parsed? {
        SameFrom(b, b', at, head.next, |b|);
        ParseAllAhead(o, b, b', n - 1, head.next, fds, head.k);
      }
    }
  }

  // ---------- Nodes as they are completed ----------

  lemma PutAt(b: seq<byte>, at: nat, w: seq<byte>, x: nat)
    requires |w| == 8 && at + 8 <= |b| && x + 8 <= |b|
    ensures At(Put(b, at, w), at) == w
    ensures x + 8 <= at || at + 8 <= x ==> At(Put(b, at, w), x) == At(b, x)
  {
    PutReads(b, at, w);
    if x + 8 <= at || at + 8 <= x {
      PutElsewhere(b, at, w, x, x + 8);
    }
  }

  /** A node that carries one word is complete once its type is in place. */
  lemma LeafHolds(o: Order, base: nat, b: seq<byte>, off: nat, t: Data)
    requires off + NODE <= |b| && (t.Fd? || t.Integer? || t.Real? || t.Bool? || t.Errno? || t.MachPort?)
    requires Unhost(o, At(b, off + 8)) == if t.MachPort? then t.port else Payload(t)
    ensures Holds(o, base, Put(b, off, Host(o, Tag(t))), off, off + NODE, t)
  {
    hide Host, Unhost, Put;
    PutAt(b, off, Host(o, Tag(t)), off + 8);
    HostRoundTrip(o, Tag(t));
    if t.Fd? {
      MinusOne(t.fd);
    } else if t.Integer? {
      MinusOne(t.number);
    }
  }

  lemma TextHolds(o: Order, base: nat, b: seq<byte>, off: nat, t: Data, hi: nat)
    requires t.String? || t.Opaque?
    requires var s := if t.String? then t.chars else t.bytes;
             && off + NODE + |s| <= hi <= |b| && |s| < 0x1_0000_0000_0000_0000 && base + |b| < 0x1_0000_0000_0000_0000
             && b[off + NODE..off + NODE + |s|] == s
             && Unhost(o, At(b, off + 8)) == base + off + NODE && Unhost(o, At(b, off + 16)) == |s|
    ensures Holds(o, base, Put(b, off, Host(o, Tag(t))), off, hi, t)
  {
    hide Host, Unhost, Put;
    var s := if t.String? then t.chars else t.bytes;
    var w := Host(o, Tag(t));
    PutAt(b, off, w, off + 8);
    PutAt(b, off, w, off + 16);
    PutElsewhere(b, off, w, off + NODE, off + NODE + |s|);
    HostRoundTrip(o, Tag(t));
  }

  lemma ContainerHolds(o: Order, base: nat, b: seq<byte>, off: nat, t: Data, hi: nat)
    requires (t.Dictionary? || t.Array?) && off + NODE <= hi <= |b| && HoldsItems(o, base, b, off, hi, t.items)
    ensures Holds(o, base, Put(b, off, Host(o, Tag(t))), off, hi, t)
  {
    hide Host, Unhost, Put, HoldsSlots;
    var w := Host(o, Tag(t));
    var c := Put(b, off, w);
    PutAt(b, off, w, off + 8);
    PutAt(b, off, w, off + 16);
    HostRoundTrip(o, Tag(t));
    var slots := off + NODE;
    SlotsBound(o, base, b, slots, slots + 8 * |t.items|, hi, t.items);
    PutElsewhere(b, off, w, slots, slots + 8 * |t.items|);
    PutElsewhere(b, off, w, slots + 8 * |t.items|, hi);
    SlotsKept(o, base, b, c, slots, slots + 8 * |t.items|, hi, hi, t.items);
  }

  /** One more item decoded, and its address stored in its slot. */
  lemma SlotFilled(o: Order, base: nat, m: seq<byte>, m1: seq<byte>, slots: nat, lo: nat, cur: nat, next: nat,
                   done: seq<Data>, t: Data)
    requires HoldsSlots(o, base, m, slots, lo, cur, done) && slots + 8 * |done| + 8 <= lo
    requires |m1| == |m| && Same(m, m1, 0, cur) && cur <= next && Holds(o, base, m1, cur, next, t)
    requires base + |m| < 0x1_0000_0000_0000_0000
    ensures HoldsSlots(o, base, Put(m1, slots + 8 * |done|, Host(o, base + cur)), slots, lo, next, done + [t])
  {
    hide Host, Unhost, Put, Holds, Same, HoldsSlots;
    SlotsBound(o, base, m, slots, lo, cur, done);
    var slot, w := slots + 8 * |done|, Host(o, base + cur);
    var m2 := Put(m1, slot, w);
    HoldsWithin(o, base, m1, cur, next, t);
    PutAt(m1, slot, w, slot);
    HostRoundTrip(o, base + cur);
    PutElsewhere(m1, slot, w, slots, slot);
    PutElsewhere(m1, slot, w, lo, cur);
    PutElsewhere(m1, slot, w, cur, next);
    SameFrom(m, m1, 0, slots, cur);
    SameFrom(m, m1, slots, slot, cur);
    SameFrom(m, m1, slot, lo, cur);
    SameTrans(m, m1, m2, slots, slot);
    SameTrans(m, m1, m2, lo, cur);
    HoldsKept(o, base, m1, m2, cur, next, next, t);
    SlotsKept(o, base, m, m2, slots, lo, cur, next, done);
    SlotsGrow(o, base, m2, slots, lo, next, done, t);
  }

  // ---------- The decoder ----------

  /** What a call leaves behind: the parser's answer, and bytes outside its own untouched. */
  ghost predicate Decoded(o: Order, base: nat, b: seq<byte>, b': seq<byte>, size: nat, fds: seq<i64>, off: nat, k: nat,
                          node: Option<nat>, off': nat, k': nat)
  {
    && off <= size <= |b| == |b'| && Same(b, b', 0, off) && Same(b, b', size, |b|)
    && var p := Parse(o, b[..size], off, fds, k);
    && !p.Wild?
    && (node.Some? <==> p.Parsed?)
    && (p.Parsed? ==>
          && node == Some(off) && off' == p.next && k' == p.k
          && Holds(o, base, b', off, p.next, p.value) && Same(b, b', p.next, |b|))
  }

  lemma AtPrefix(b: seq<byte>, size: nat, x: nat)
    requires x + 8 <= size <= |b|
    ensures At(b[..size], x) == At(b, x)
  {
  }

  lemma PutSame(b0: seq<byte>, b: seq<byte>, at: nat, w: seq<byte>, lo: nat, hi: nat)
    requires at + |w| <= |b| == |b0| && lo <= hi <= |b| && (hi <= at || at + |w| <= lo) && Same(b0, b, lo, hi)
    ensures Same(b0, Put(b, at, w), lo, hi)
  {
    hide Put;
    PutElsewhere(b, at, w, lo, hi);
  }

  lemma SlicePrefix(b: seq<byte>, size: nat, x: nat, y: nat)
    requires x <= y <= size <= |b|
    ensures b[..size][x..y] == b[x..y]
  {
  }

  /** All of a node is decoded but for its type, which is stored last. */
  ghost predicate Ready(o: Order, base: nat, b: seq<byte>, b': seq<byte>, size: nat, fds: seq<i64>, off: nat, k: nat,
                        t: Data, off': nat, k': nat)
  {
    && off + NODE <= off' <= size <= |b| == |b'| && Same(b, b', 0, off) && Same(b, b', off', |b|)
    && Parse(o, b[..size], off, fds, k) == Parsed(t, off', k')
    && Holds(o, base, Put(b', off, Host(o, Tag(t))), off, off', t)
  }

  lemma TypeStored(o: Order, base: nat, b: seq<byte>, b': seq<byte>, size: nat, fds: seq<i64>, off: nat, k: nat,
                   t: Data, off': nat, k': nat)
    requires Ready(o, base, b, b', size, fds, off, k, t, off', k')
    ensures Decoded(o, base, b, Put(b', off, Host(o, Tag(t))), size, fds, off, k, Some(off), off', k')
  {
    hide Host, Put, Same, Holds, Parse;
    var w := Host(o, Tag(t));
    PutSame(b, b', off, w, 0, off);
    PutSame(b, b', off, w, off', |b|);
    SameFrom(b, Put(b', off, w), off', size, |b|);
  }

  /** A node carrying one word. */
  lemma LeafReady(o: Order, base: nat, b: seq<byte>, b': seq<byte>, size: nat, fds: seq<i64>, off: nat, k: nat,
                  t: Data, k': nat)
    requires off + NODE <= size <= |b| && (t.Fd? || t.Integer? || t.Real? || t.Bool? || t.Errno? || t.MachPort?)
    requires Parse(o, b[..size], off, fds, k) == Parsed(t, off + NODE, k')
    requires
      var v := if t.MachPort? then t.port else Payload(t);
      b' == Put(b, off + 8, Host(o, v)) || (b' == b && Unhost(o, At(b, off + 8)) == v)
    ensures Ready(o, base, b, b', size, fds, off, k, t, off + NODE, k')
  {
    hide Host, Unhost, Put, Same, Holds, Parse;
    var v := if t.MachPort? then t.port else Payload(t);
    var w := Host(o, v);
    PutAt(b, off + 8, w, off + 8);
    HostRoundTrip(o, v);
    PutElsewhere(b, off + 8, w, 0, off);
    PutElsewhere(b, off + 8, w, off + NODE, |b|);
    SameItself(b, 0, off);
    SameItself(b, off + NODE, |b|);
    LeafHolds(o, base, b', off, t);
  }

  lemma SameItself(b: seq<byte>, lo: nat, hi: nat)
    requires lo <= hi <= |b|
    ensures Same(b, b, lo, hi)
  {
  }

  /** A node carrying bytes: the address and the length replace what was there. */
  lemma TextReady(o: Order, base: nat, b: seq<byte>, size: nat, fds: seq<i64>, off: nat, k: nat, t: Data, off': nat)
    requires off + NODE <= size <= |b| && (t.String? || t.Opaque?) && base + |b| < 0x1_0000_0000_0000_0000
    requires Parse(o, b[..size], off, fds, k) == Parsed(t, off', k)
    requires
      var s := if t.String? then t.chars else t.bytes;
      off + NODE + |s| <= off' && s == b[off + NODE..off + NODE + |s|] && |s| < 0x1_0000_0000_0000_0000
    ensures
      var s := if t.String? then t.chars else t.bytes;
      Ready(o, base, b, Put(Put(b, off + 8, Host(o, base + off + NODE)), off + 16, Host(o, |s|)), size, fds, off, k, t, off', k)
  {
    hide Host, Unhost, Put, Same, Holds, Parse;
    var s := if t.String? then t.chars else t.bytes;
    var p, n := Host(o, base + off + NODE), Host(o, |s|);
    var b1 := Put(b, off + 8, p);
    var b2 := Put(b1, off + 16, n);
    HostRoundTrip(o, base + off + NODE);
    HostRoundTrip(o, |s|);
    PutAt(b, off + 8, p, off + 8);
    PutAt(b1, off + 16, n, off + 8);
    PutAt(b1, off + 16, n, off + 16);
    PutElsewhere(b, off + 8, p, 0, off);
    PutSame(b, b1, off + 16, n, 0, off);
    PutElsewhere(b, off + 8, p, off + NODE, |b|);
    PutSame(b, b1, off + 16, n, off + NODE, |b|);
    SamePart(b, b2, off + NODE, |b|, off + NODE, off + NODE + |s|);
    SameFrom(b, b2, off + NODE, off', |b|);
    TextHolds(o, base, b2, off, t, off');
  }

  /** How far the items of a container are decoded. */
  ghost predicate Progress(o: Order, base: nat, b: seq<byte>, b': seq<byte>, size: nat, fds: seq<i64>, off: nat, k: nat,
                           count: nat, done: seq<Data>, cur: nat, kc: nat)
  {
    && off + NODE + 8 * count <= cur <= size <= |b| == |b'| && |done| <= count
    && base + |b| < 0x1_0000_0000_0000_0000
    && HoldsSlots(o, base, b', off + NODE, off + NODE + 8 * count, cur, done)
    && Same(b, b', 0, off) && Same(b, b', cur, |b|)
    && Unhost(o, At(b', off + 8)) == base + off + NODE
    && ParseAll(o, b[..size], count, off + NODE + 8 * count, fds, k)
    == Continued(done, ParseAll(o, b[..size], count - |done|, cur, fds, kc))
  }

  ghost function Continued(done: seq<Data>, rest: Parsed<seq<Data>>): Parsed<seq<Data>> {
    match rest
    case Parsed(items, next, k) => Parsed(done + items, next, k)
    case _ => rest
  }

  lemma ProgressStarts(o: Order, base: nat, b: seq<byte>, size: nat, fds: seq<i64>, off: nat, k: nat, count: nat)
    requires off + NODE + 8 * count <= size <= |b| && base + |b| < 0x1_0000_0000_0000_0000
    ensures Progress(o, base, b, Put(b, off + 8, Host(o, base + off + NODE)), size, fds, off, k, count, [], off + NODE + 8 * count, k)
  {
    hide Host, Unhost, Put, Same, ParseAll;
    var w := Host(o, base + off + NODE);
    PutAt(b, off + 8, w, off + 8);
    HostRoundTrip(o, base + off + NODE);
    PutElsewhere(b, off + 8, w, 0, off);
    PutElsewhere(b, off + 8, w, off + NODE + 8 * count, |b|);
    ContinuedFromNone(ParseAll(o, b[..size], count, off + NODE + 8 * count, fds, k));
  }

  lemma ContinuedFromNone(rest: Parsed<seq<Data>>)
    ensures Continued([], rest) == rest
  {
    if rest.Parsed? {
      assert [] + rest.value == rest.value;
    }
  }

  /** The next item's bytes have not been touched yet. */
  lemma ProgressNext(o: Order, base: nat, b: seq<byte>, b': seq<byte>, size: nat, fds: seq<i64>, off: nat, k: nat,
                     count: nat, done: seq<Data>, cur: nat, kc: nat)
    requires Progress(o, base, b, b', size, fds, off, k, count, done, cur, kc) && |done| < count
    requires !ParseAll(o, b[..size], count, off + NODE + 8 * count, fds, k).Wild?
    ensures !Parse(o, b'[..size], cur, fds, kc).Wild?
    ensures Parse(o, b'[..size], cur, fds, kc) == Parse(o, b[..size], cur, fds, kc)
    ensures Parse(o, b'[..size], cur, fds, kc).Rejected? ==>
              ParseAll(o, b[..size], count, off + NODE + 8 * count, fds, k).Rejected?
  {
    hide Host, Unhost, Put, Parse, HoldsSlots;
    assert Same(b[..size], b'[..size], cur, size) by {
      SameFrom(b, b', cur, size, |b|);
      assert b[..size][cur..size] == b[cur..size] && b'[..size][cur..size] == b'[cur..size];
    }
    ParseAhead(o, b[..size], b'[..size], cur, fds, kc);
    ParseAllFails(o, b[..size], count - |done|, cur, fds, kc);
  }

  lemma ParseAllFails(o: Order, b: seq<byte>, n: nat, at: nat, fds: seq<i64>, k: nat)
    requires at <= |b| && 0 < n
    ensures Parse(o, b, at, fds, k).Wild? ==> ParseAll(o, b, n, at, fds, k).Wild?
    ensures Parse(o, b, at, fds, k).Rejected? ==> ParseAll(o, b, n, at, fds, k).Rejected?
  {
  }

  lemma ParseAllStep(o: Order, b: seq<byte>, n: nat, at: nat, fds: seq<i64>, k: nat)
    requires at <= |b| && 0 < n && Parse(o, b, at, fds, k).Parsed?
    ensures var head := Parse(o, b, at, fds, k);
            ParseAll(o, b, n, at, fds, k) == Continued([head.value], ParseAll(o, b, n - 1, head.next, fds, head.k))
  {
  }

  lemma ContinuedTwice(done: seq<Data>, t: Data, rest: Parsed<seq<Data>>)
    ensures Continued(done, Continued([t], rest)) == Continued(done + [t], rest)
  {
    if rest.Parsed? {
      assert done + ([t] + rest.value) == (done + [t]) + rest.value;
    }
  }

  /** An item decoded, and its address stored. */
  lemma ProgressMade(o: Order, base: nat, b: seq<byte>, b1: seq<byte>, b2: seq<byte>, size: nat, fds: seq<i64>, off: nat, k: nat,
                     count: nat, done: seq<Data>, cur: nat, kc: nat, t: Data, next: nat, kn: nat)
    requires Progress(o, base, b, b1, size, fds, off, k, count, done, cur, kc) && |done| < count
    requires Parse(o, b[..size], cur, fds, kc) == Parsed(t, next, kn)
    requires |b2| == |b1| && Same(b1, b2, 0, cur) && Same(b1, b2, next, |b|) && next <= size && Holds(o, base, b2, cur, next, t)
    ensures Progress(o, base, b, Put(b2, off + NODE + 8 * |done|, Host(o, base + cur)), size, fds, off, k,
              count, done + [t], next, kn)
  {
    hide Host, Unhost, Put, Same, Holds, Parse, ParseAll, HoldsSlots;
    var w, slot := Host(o, base + cur), off + NODE + 8 * |done|;
    var b3 := Put(b2, slot, w);
    SlotFilled(o, base, b1, b2, off + NODE, off + NODE + 8 * count, cur, next, done, t);
    SameFrom(b1, b2, 0, off, cur);
    SameTrans(b, b1, b2, 0, off);
    PutSame(b, b2, slot, w, 0, off);
    SameFrom(b, b1, cur, next, |b|);
    SameTrans(b, b1, b2, next, |b|);
    PutSame(b, b2, slot, w, next, |b|);
    SamePart(b1, b2, 0, cur, off + 8, off + 16);
    PutAt(b2, slot, w, off + 8);
    ParseAllStep(o, b[..size], count - |done|, cur, fds, kc);
    ContinuedTwice(done, t, ParseAll(o, b[..size], count - |done| - 1, next, fds, kn));
  }

  /** All items decoded: the count is stored over its wire form. */
  lemma ProgressEnds(o: Order, base: nat, b: seq<byte>, b': seq<byte>, size: nat, fds: seq<i64>, off: nat, k: nat,
                     count: nat, t: Data, cur: nat, kc: nat)
    requires (t.Dictionary? || t.Array?) && |t.items| == count && count < 0x1_0000_0000_0000_0000
    requires Progress(o, base, b, b', size, fds, off, k, count, t.items, cur, kc)
    requires Parse(o, b[..size], off, fds, k) == Parsed(t, cur, kc)
    ensures Ready(o, base, b, Put(b', off + 16, Host(o, count)), size, fds, off, k, t, cur, kc)
  {
    hide Host, Unhost, Put, Same, Holds, Parse, HoldsSlots;
    var w, slots := Host(o, count), off + NODE;
    var b1 := Put(b', off + 16, w);
    PutAt(b', off + 16, w, off + 16);
    PutAt(b', off + 16, w, off + 8);
    HostRoundTrip(o, count);
    PutSame(b, b', off + 16, w, 0, off);
    PutSame(b, b', off + 16, w, cur, |b|);
    PutElsewhere(b', off + 16, w, slots, slots + 8 * count);
    PutElsewhere(b', off + 16, w, slots + 8 * count, cur);
    SlotsKept(o, base, b', b1, slots, slots + 8 * count, cur, cur, t.items);
    ContainerHolds(o, base, b1, off, t, cur);
  }

  lemma ParseContainer(o: Order, b: seq<byte>, off: nat, fds: seq<i64>, k: nat)
    requires off + NODE <= |b| && Unwire(At(b, off)) in {1, 2} && !Parse(o, b, off, fds, k).Wild?
    ensures
      var count: nat := Unwire(At(b, off + 16));
      && 8 * count < 0x1_0000_0000_0000_0000
      && (|b| - off - NODE < 8 * count ==> Parse(o, b, off, fds, k).Rejected?)
      && (off + NODE + 8 * count <= |b| ==>
           var all := ParseAll(o, b, count, off + NODE + 8 * count, fds, k);
           && !all.Wild?
           && (all.Rejected? ==> Parse(o, b, off, fds, k).Rejected?)
           && (all.Parsed? ==>
                var t := if Unwire(At(b, off)) == 1 then Dictionary(all.value) else Array(all.value);
                Parse(o, b, off, fds, k) == Parsed(t, all.next, all.k)))
  {
    hide Unwire, ParseAll;
  }

  /** The container case of launch_data_unpack, all but its type. */
  method UnpackItems(o: Order, base: nat, buf: array<byte>, size: nat, fds: seq<i64>, off: nat, k: nat, count: nat)
    returns (ok: bool, off': nat, k': nat, ghost items: seq<Data>)
    requires off + NODE + 8 * count <= size <= buf.Length && base + buf.Length < 0x1_0000_0000_0000_0000
    requires !ParseAll(o, buf[..size], count, off + NODE + 8 * count, fds, k).Wild?
    modifies buf
    ensures var all := ParseAll(o, old(buf[..size]), count, off + NODE + 8 * count, fds, k);
            if ok then
              && all == Parsed(items, off', k') && |items| == count
              && Progress(o, base, old(buf[..]), buf[..], size, fds, off, k, count, items, off', k')
            else
              all.Rejected? && Same(old(buf[..]), buf[..], 0, off) && Same(old(buf[..]), buf[..], size, buf.Length)
    decreases size - off, 0
  {
    hide Host, Unhost, Put, Holds, Same, Parse, ParseAll, Progress;
    ghost var b0 := buf[..];
    assert b0[..size] == buf[..size];
    Store(buf, off + 8, Host(o, base + off + NODE));
    ProgressStarts(o, base, b0, size, fds, off, k, count);
    off', k', items := off + NODE + 8 * count, k, [];
    for i := 0 to count
      invariant |items| == i && off + NODE + 8 * count <= off' <= size
      invariant Progress(o, base, b0, buf[..], size, fds, off, k, count, items, off', k')
    {
      ghost var b1 := buf[..];
      ProgressNext(o, base, b0, b1, size, fds, off, k, count, items, off', k');
      assert b1[..size] == buf[..size];
      ghost var child := Parse(o, b1[..size], off', fds, k');
      var node, next, kn := Unpack(o, base, buf, size, fds, off', k');
      ProgressKept(o, base, b0, b1, buf[..], size, fds, off, k, count, items, off', k', node, next, kn);
      ghost var b2 := buf[..];
      if node == None {
        Store(buf, off + NODE + 8 * i, Host(o, 0));
        PutSame(b0, b2, off + NODE + 8 * i, Host(o, 0), 0, off);
        PutSame(b0, b2, off + NODE + 8 * i, Host(o, 0), size, buf.Length);
        return false, next, kn, items;
      }
      Store(buf, off + NODE + 8 * i, Host(o, base + node.value));
      ProgressMade(o, base, b0, b1, b2, size, fds, off, k, count, items, off', k', child.value, next, kn);
      off', k', items := next, kn, items + [child.value];
    }
    ProgressIsAll(o, base, b0, buf[..], size, fds, off, k, count, items, off', k');
    ok := true;
  }

  /** A nested call leaves what was decoded before it alone. */
  lemma ProgressKept(o: Order, base: nat, b: seq<byte>, b1: seq<byte>, b2: seq<byte>, size: nat, fds: seq<i64>, off: nat, k: nat,
                     count: nat, done: seq<Data>, cur: nat, kc: nat, node: Option<nat>, next: nat, kn: nat)
    requires Progress(o, base, b, b1, size, fds, off, k, count, done, cur, kc)
    requires Decoded(o, base, b1, b2, size, fds, cur, kc, node, next, kn)
    ensures |b2| == |b| && Same(b, b2, 0, off) && Same(b, b2, size, |b|) && Same(b1, b2, 0, cur)
    ensures var p := Parse(o, b1[..size], cur, fds, kc);
            if node.Some? then
              && node.value == cur && p.Parsed? && p.next == next && p.k == kn && cur + NODE <= next <= size
              && Same(b1, b2, next, |b|) && Holds(o, base, b2, cur, next, p.value)
            else p.Rejected?
  {
    hide Host, Unhost, Put, Same, Holds, Parse, ParseAll, HoldsSlots;
    SameFrom(b1, b2, 0, off, cur);
    SameTrans(b, b1, b2, 0, off);
    SameFrom(b, b1, cur, size, |b|);
    SameTrans(b, b1, b2, size, |b|);
  }

  lemma ProgressIsAll(o: Order, base: nat, b: seq<byte>, b': seq<byte>, size: nat, fds: seq<i64>, off: nat, k: nat,
                      count: nat, items: seq<Data>, cur: nat, kc: nat)
    requires Progress(o, base, b, b', size, fds, off, k, count, items, cur, kc) && |items| == count
    ensures ParseAll(o, b[..size], count, off + NODE + 8 * count, fds, k) == Parsed(items, cur, kc)
  {
    assert items + [] == items;
  }

  lemma ParseWord(o: Order, b: seq<byte>, off: nat, fds: seq<i64>, k: nat)
    requires off + NODE <= |b|
    ensures
      var p, tag, word := Parse(o, b, off, fds, k), Unwire(At(b, off)), At(b, off + 8);
      && (tag == 3 && word != Wire(Unsigned(-1)) && k < |fds| ==> p == Parsed(Fd(fds[k]), off + NODE, k + 1))
      && (tag == 3 && !(word != Wire(Unsigned(-1)) && k < |fds|) ==> p == Parsed(Fd(Signed(Unhost(o, word))), off + NODE, k))
      && (tag == 4 ==> p == Parsed(Integer(Signed(Unwire(word))), off + NODE, k))
      && (tag == 5 ==> p == Parsed(Real(Unwire(word)), off + NODE, k))
      && (tag == 6 ==> p == Parsed(Bool(Unwire(word)), off + NODE, k))
      && (tag == 9 ==> p == Parsed(Errno(Unwire(word)), off + NODE, k))
      && (tag == 10 ==> p == Parsed(MachPort(Unhost(o, word)), off + NODE, k))
      && (tag == 0 || 10 < tag ==> p.Rejected?)
  {
    hide Unwire, Wire, Unhost;
  }

  lemma ParseText(o: Order, b: seq<byte>, off: nat, fds: seq<i64>, k: nat)
    requires off + NODE <= |b| && Unwire(At(b, off)) in {7, 8} && !Parse(o, b, off, fds, k).Wild?
    ensures
      var p, count: nat := Parse(o, b, off, fds, k), Unwire(At(b, off + 16));
      && (Unwire(At(b, off)) == 7 ==>
           if |b| - off - NODE < count + 1 then p.Rejected?
           else p == Parsed(String(b[off + NODE..off + NODE + count]), off + NODE + Round(count + 1), k))
      && (Unwire(At(b, off)) == 8 ==>
           if |b| - off - NODE < count then p.Rejected?
           else p == Parsed(Opaque(b[off + NODE..off + NODE + count]), off + NODE + Round(count), k))
  {
    hide Unwire;
  }

  /** The nodes without children, all but their type; the count of one that holds bytes is replaced in place. */
  method UnpackLeaf(o: Order, base: nat, buf: array<byte>, size: nat, fds: seq<i64>, off: nat, k: nat)
    returns (ok: bool, off': nat, k': nat)
    requires off + NODE <= size <= buf.Length && base + buf.Length < 0x1_0000_0000_0000_0000
    requires !Parse(o, buf[..size], off, fds, k).Wild? && Unwire(At(buf[..size], off)) !in {1, 2}
    modifies buf
    ensures var p := Parse(o, old(buf[..size]), off, fds, k);
            if ok then p.Parsed? && Ready(o, base, old(buf[..]), buf[..], size, fds, off, k, p.value, off', k')
                  && Tag(p.value) == Unwire(At(old(buf[..size]), off))
            else p.Rejected? && buf[..] == old(buf[..])
  {
    hide Wire, Unwire, Host, Unhost, Put, Holds, Same, Parse, Ready;
    ghost var b0 := buf[..];
    assert b0[..size] == buf[..size];
    ghost var p := Parse(o, b0[..size], off, fds, k);
    var tag := Unwire(buf[off..off + 8]);
    var word := buf[off + 8..off + 16];
    var count: nat := Unwire(buf[off + 16..off + 24]);
    AtPrefix(b0, size, off);
    AtPrefix(b0, size, off + 8);
    AtPrefix(b0, size, off + 16);
    ParseWord(o, b0[..size], off, fds, k);
    off', k', ok := off + NODE, k, true;
    if tag == 7 || tag == 8 {
      ParseText(o, b0[..size], off, fds, k);
      var extent := if tag == 7 then count + 1 else count;
      if size - off' < extent {
        return false, off', k;
      }
      SlicePrefix(b0, size, off + NODE, off + NODE + count);
      Store(buf, off + 8, Host(o, base + off'));
      Store(buf, off + 16, Host(o, count));
      off' := off' + Round(extent);
      TextReady(o, base, b0, size, fds, off, k, p.value, off');
    } else if tag == 3 {
      if word != Wire(Unsigned(-1)) && k < |fds| {
        Store(buf, off + 8, Host(o, Unsigned(fds[k])));
        k' := k + 1;
      } else {
        SignedBack(Unhost(o, word));
      }
      LeafReady(o, base, b0, buf[..], size, fds, off, k, p.value, k');
    } else if tag == 4 || tag == 5 || tag == 6 || tag == 9 {
      Store(buf, off + 8, Host(o, Unwire(word)));
      SignedBack(Unwire(word));
      LeafReady(o, base, b0, buf[..], size, fds, off, k, p.value, k');
    } else if tag == 10 {
      LeafReady(o, base, b0, buf[..], size, fds, off, k, p.value, k');
    } else {
      return false, off', k;
    }
  }

  lemma SignedBack(v: u64)
    ensures Unsigned(Signed(v)) == v
  {
  }

  /** launch_data_unpack; `base` is the address of the buffer. */
  method Unpack(o: Order, base: nat, buf: array<byte>, size: nat, fds: seq<i64>, off: nat, k: nat)
    returns (node: Option<nat>, off': nat, k': nat)
    requires off <= size <= buf.Length && base + buf.Length < 0x1_0000_0000_0000_0000
    requires !Parse(o, buf[..size], off, fds, k).Wild?
    modifies buf
    ensures Decoded(o, base, old(buf[..]), buf[..], size, fds, off, k, node, off', k')
    decreases size - off, 1
  {
    hide Wire, Unwire, Host, Unhost, Put, Holds, Same, ParseAll, Ready, Progress;
    ghost var b0 := buf[..];
    assert b0[..size] == buf[..size];
    SameItself(b0, 0, off);
    SameItself(b0, size, |b0|);
    if size - off < NODE {
      return None, off, k;
    }
    hide Parse;
    AtPrefix(b0, size, off);
    AtPrefix(b0, size, off + 16);
    var tag := Unwire(buf[off..off + 8]);
    var count: nat := Unwire(buf[off + 16..off + 24]);
    ghost var t: Data;
    if tag == 1 || tag == 2 {
      ParseContainer(o, b0[..size], off, fds, k);
      if size - (off + NODE) < 8 * count {
        return None, off + NODE, k;
      }
      var ok;
      ghost var items;
      ok, off', k', items := UnpackItems(o, base, buf, size, fds, off, k, count);
      if !ok {
        return None, off', k';
      }
      t := if tag == 1 then Dictionary(items) else Array(items);
      ghost var b1 := buf[..];
      Store(buf, off + 16, Host(o, count));
      ProgressEnds(o, base, b0, b1, size, fds, off, k, count, t, off', k');
    } else {
      var ok;
      ok, off', k' := UnpackLeaf(o, base, buf, size, fds, off, k);
      if !ok {
        return None, off', k';
      }
      t := Parse(o, b0[..size], off, fds, k).value;
    }
    ghost var b2 := buf[..];
    Store(buf, off, Host(o, tag));
    TypeStored(o, base, b0, b2, size, fds, off, k, t, off', k');
    node := Some(off);
  }

  /** Unpacking in place what was packed, whatever follows it, leaves what the bytes carry of it, with the received descriptors. */
  lemma UnpackRebuilds(o: Order, base: nat, b: seq<byte>, b': seq<byte>, size: nat, at: nat, t: Data, fds: seq<i64>, k: nat,
                       node: Option<nat>, off': nat, k': nat)
    requires at + Size(t) <= size <= |b| && Fits(t) && k + |Fds(t)| <= |fds|
    requires Decoded(o, base, Image(b, at, t), b', size, fds, at, k, node, off', k')
    ensures node == Some(at) && off' == at + Size(t) && k' == k + |Fds(t)|
    ensures Holds(o, base, b', at, off', WithFds(WithStale(o, b, at, t), fds, k))
    ensures Same(b, b', 0, at) && Same(b, b', off', |b|)
  {
    hide Image, Holds, Parse;
    var r := Image(b, at, t);
    RoundTrip(o, b, at, t, fds, k);
    SlicePrefix(r, size, at, at + Size(t));
    assert Same(r, r[..size], at, at + Size(t));
    ParseStable(o, r, r[..size], at, fds, k, Parse(o, r, at, fds, k));
    ImageFrame(b, at, t, 0, at);
    ImageFrame(b, at, t, at + Size(t), |b|);
  }
}
