/**
 Decoding undoes packing: whatever lies around the packed bytes, and whatever the
 buffer held before.
 */
module CodecRoundTrip {
  import opened LaunchData

  // ---------- Writing and reading at a place ----------

  lemma PutReads(b: seq<byte>, at: nat, w: seq<byte>)
    requires at + |w| <= |b|
    ensures Put(b, at, w)[at..at + |w|] == w
    ensures Put(b, at, w)[..at] == b[..at] && Put(b, at, w)[at + |w|..] == b[at + |w|..]
  {
  }

  /** A part of the buffer that two buffers agree on. */
  predicate Same(b: seq<byte>, b': seq<byte>, lo: nat, hi: nat)
    requires lo <= hi <= |b| && hi <= |b'|
  {
    b[lo..hi] == b'[lo..hi]
  }

  lemma SamePart(b: seq<byte>, b': seq<byte>, lo: nat, hi: nat, x: nat, y: nat)
    requires lo <= x <= y <= hi <= |b| && hi <= |b'| && Same(b, b', lo, hi)
    ensures b[x..y] == b'[x..y]
  {
    forall j | 0 <= j < y - x ensures b[x..y][j] == b'[x..y][j] {
      assert b[x + j] == b[lo..hi][x + j - lo];
      assert b'[x + j] == b'[lo..hi][x + j - lo];
    }
  }

  lemma SameFrom(b: seq<byte>, b': seq<byte>, lo: nat, x: nat, hi: nat)
    requires lo <= x <= hi <= |b| && hi <= |b'| && Same(b, b', lo, hi)
    ensures Same(b, b', x, hi) && Same(b, b', lo, x)
  {
    SamePart(b, b', lo, hi, x, hi);
    SamePart(b, b', lo, hi, lo, x);
  }

  lemma SameTrans(a: seq<byte>, b: seq<byte>, c: seq<byte>, lo: nat, hi: nat)
    requires lo <= hi <= |a| && hi <= |b| && hi <= |c| && Same(a, b, lo, hi) && Same(b, c, lo, hi)
    ensures Same(a, c, lo, hi)
  {
  }

  lemma PutElsewhere(b: seq<byte>, at: nat, w: seq<byte>, lo: nat, hi: nat)
    requires at + |w| <= |b| && lo <= hi <= |b| && (hi <= at || at + |w| <= lo)
    ensures Same(b, Put(b, at, w), lo, hi)
  {
    forall j | lo <= j < hi ensures Put(b, at, w)[j] == b[j] {
      if at + |w| <= j { assert b[at + |w|..][j - at - |w|] == b[j]; }
    }
  }

  // ---------- Packing writes only its own bytes ----------

  lemma {:induction false} ImageFrame(b: seq<byte>, at: nat, t: Data, lo: nat, hi: nat)
    requires at + Size(t) <= |b| && Fits(t)
    requires lo <= hi <= |b| && (hi <= at || at + Size(t) <= lo)
    ensures Same(b, Image(b, at, t), lo, hi)
    decreases t
  {
    hide Wire, Put, Padded, Same;
    var b1 := Put(b, at, Wire(Tag(t)));
    PutElsewhere(b, at, Wire(Tag(t)), lo, hi);
    if t.Dictionary? || t.Array? {
      var b2 := Put(b1, at + 16, Wire(|t.items|));
      PutElsewhere(b1, at + 16, Wire(|t.items|), lo, hi);
      ImageAllFrame(b2, at + NODE + 8 * |t.items|, t.items, lo, hi);
      SameTrans(b, b1, b2, lo, hi);
      SameTrans(b, b2, Image(b, at, t), lo, hi);
    } else if t.String? || t.Opaque? {
      var s := if t.String? then t.chars else t.bytes;
      var w := if t.String? then Padded(s + [0]) else Padded(s);
      var b2 := Put(b1, at + 16, Wire(|s|));
      PutElsewhere(b1, at + 16, Wire(|s|), lo, hi);
      PutElsewhere(b2, at + NODE, w, lo, hi);
      SameTrans(b, b1, b2, lo, hi);
      SameTrans(b, b2, Image(b, at, t), lo, hi);
    } else if !t.MachPort? {
      PutElsewhere(b1, at + 8, Wire(Payload(t)), lo, hi);
      SameTrans(b, b1, Image(b, at, t), lo, hi);
    }
  }

  lemma {:induction false} ImageAllFrame(b: seq<byte>, at: nat, items: seq<Data>, lo: nat, hi: nat)
    requires at + SizeAll(items) <= |b| && FitsAll(items)
    requires lo <= hi <= |b| && (hi <= at || at + SizeAll(items) <= lo)
    ensures Same(b, ImageAll(b, at, items), lo, hi)
    decreases items
  {
    if items != [] {
      var b1 := Image(b, at, items[0]);
      ImageFrame(b, at, items[0], lo, hi);
      ImageAllFrame(b1, at + Size(items[0]), items[1..], lo, hi);
      SameTrans(b, b1, ImageAll(b, at, items), lo, hi);
    }
  }

  // ---------- Decoding reads only the bytes it consumes ----------

  /** Parsing does not depend on where in a buffer the bytes lie. */
  lemma {:induction false} ParseShifted(o: Order, b: seq<byte>, b': seq<byte>, shift: nat, at: nat, fds: seq<i64>, k: nat)
    requires at <= |b| && Parse(o, b, at, fds, k).Parsed?
    requires
      var next := Parse(o, b, at, fds, k).next;
      shift + next <= |b'| && b'[shift + at..shift + next] == b[at..next]
    ensures Parse(o, b', shift + at, fds, k) == Parse(o, b, at, fds, k).(next := shift + Parse(o, b, at, fds, k).next)
    decreases |b| - at, 0
  {
    hide Wire, Unwire, Unhost, ParseAll, Round, Signed, Unsigned;
    var next := Parse(o, b, at, fds, k).next;
    ShiftedPart(b, b', shift, at, next, at, at + 8);
    ShiftedPart(b, b', shift, at, next, at + 8, at + 16);
    ShiftedPart(b, b', shift, at, next, at + 16, at + 24);
    var tag := Unwire(At(b, at));
    var count: nat := Unwire(At(b, at + 16));
    if tag == 1 || tag == 2 {
      var start := at + NODE + 8 * count;
      ShiftedPart(b, b', shift, at, next, start, next);
      ParseAllShifted(o, b, b', shift, count, start, fds, k);
    } else if tag == 7 || tag == 8 {
      ShiftedPart(b, b', shift, at, next, at + NODE, at + NODE + count);
    }
  }

  lemma ShiftedPart(b: seq<byte>, b': seq<byte>, shift: nat, lo: nat, hi: nat, x: nat, y: nat)
    requires lo <= x <= y <= hi <= |b| && shift + hi <= |b'| && b'[shift + lo..shift + hi] == b[lo..hi]
    ensures b'[shift + x..shift + y] == b[x..y]
  {
    forall j | 0 <= j < y - x ensures b'[shift + x..shift + y][j] == b[x..y][j] {
      assert b[x + j] == b[lo..hi][x + j - lo];
      assert b'[shift + x + j] == b'[shift + lo..shift + hi][x + j - lo];
    }
  }

  lemma {:induction false} ParseAllShifted(o: Order, b: seq<byte>, b': seq<byte>, shift: nat, n: nat, at: nat, fds: seq<i64>, k: nat)
    requires at <= |b| && ParseAll(o, b, n, at, fds, k).Parsed?
    requires
      var next := ParseAll(o, b, n, at, fds, k).next;
      shift + next <= |b'| && b'[shift + at..shift + next] == b[at..next]
    ensures ParseAll(o, b', n, shift + at, fds, k)
         == ParseAll(o, b, n, at, fds, k).(next := shift + ParseAll(o, b, n, at, fds, k).next)
    decreases |b| - at, n + 1
  {
    hide Parse;
    if n > 0 {
      var head := Parse(o, b, at, fds, k);
      var next := ParseAll(o, b, n, at, fds, k).next;
      ShiftedPart(b, b', shift, at, next, at, head.next);
      ShiftedPart(b, b', shift, at, next, head.next, next);
      ParseShifted(o, b, b', shift, at, fds, k);
      ParseAllShifted(o, b, b', shift, n - 1, head.next, fds, head.k);
    }
  }

  /** Nor on what lies after the bytes consumed. */
  lemma ParseStable(o: Order, b: seq<byte>, b': seq<byte>, at: nat, fds: seq<i64>, k: nat, p: Parsed<Data>)
    requires at <= |b| && at <= |b'| && p.Parsed? && at <= p.next <= |b| && p.next <= |b'|
    requires Parse(o, b, at, fds, k) == p && Same(b, b', at, p.next)
    ensures Parse(o, b', at, fds, k) == p
  {
    hide Parse, ParseAll, Wire, Unwire, Unhost;
    assert b'[0 + at..0 + p.next] == b[at..p.next];
    ParseShifted(o, b, b', 0, at, fds, k);
  }

  // ---------- The round trip ----------

  lemma HeaderReads(b: seq<byte>, at: nat, t: Data)
    requires at + Size(t) <= |b| && Fits(t)
    ensures At(Image(b, at, t), at) == Wire(Tag(t))
    ensures (t.Dictionary? || t.Array?) ==> At(Image(b, at, t), at + 16) == Wire(|t.items|)
    ensures t.String? ==> At(Image(b, at, t), at + 16) == Wire(|t.chars|)
    ensures t.Opaque? ==> At(Image(b, at, t), at + 16) == Wire(|t.bytes|)
    ensures (t.Fd? || t.Integer? || t.Real? || t.Bool? || t.Errno?) ==> At(Image(b, at, t), at + 8) == Wire(Payload(t))
    ensures t.MachPort? ==> At(Image(b, at, t), at + 8) == At(b, at + 8)
  {
    hide Wire, Padded;
    var r := Image(b, at, t);
    var b1 := Put(b, at, Wire(Tag(t)));
    PutReads(b, at, Wire(Tag(t)));
    if t.Dictionary? || t.Array? {
      var w := Wire(|t.items|);
      var b2 := Put(b1, at + 16, w);
      PutReads(b1, at + 16, w);
      PutElsewhere(b1, at + 16, w, at, at + 8);
      ImageAllFrame(b2, at + NODE + 8 * |t.items|, t.items, at, at + 8);
      ImageAllFrame(b2, at + NODE + 8 * |t.items|, t.items, at + 16, at + 24);
    } else if t.String? || t.Opaque? {
      var s := if t.String? then t.chars else t.bytes;
      var rest := if t.String? then Padded(s + [0]) else Padded(s);
      var b2 := Put(b1, at + 16, Wire(|s|));
      PutReads(b1, at + 16, Wire(|s|));
      PutElsewhere(b1, at + 16, Wire(|s|), at, at + 8);
      PutElsewhere(b2, at + NODE, rest, at, at + 8);
      PutElsewhere(b2, at + NODE, rest, at + 16, at + 24);
    } else if !t.MachPort? {
      PutReads(b1, at + 8, Wire(Payload(t)));
      PutElsewhere(b1, at + 8, Wire(Payload(t)), at, at + 8);
    } else {
      PutElsewhere(b, at, Wire(Tag(t)), at + 8, at + 16);
    }
  }

  lemma BodyReads(b: seq<byte>, at: nat, t: Data)
    requires at + Size(t) <= |b| && Fits(t) && (t.String? || t.Opaque?)
    ensures var s := if t.String? then t.chars else t.bytes;
            Image(b, at, t)[at + NODE..at + NODE + |s|] == s
    ensures t.String? ==> Image(b, at, t)[at + NODE + |t.chars|] == 0
  {
    var s := if t.String? then t.chars else t.bytes;
    var b2 := Put(Put(b, at, Wire(Tag(t))), at + 16, Wire(|s|));
    var w := if t.String? then Padded(s + [0]) else Padded(s);
    PutReads(b2, at + NODE, w);
    assert Image(b, at, t)[at + NODE..at + NODE + |s|] == w[..|s|];
    assert t.String? ==> w[|s|] == 0 && Image(b, at, t)[at + NODE + |s|] == w[|s|];
  }

  lemma MinusOne(v: i64)
    ensures Wire(Unsigned(v)) == Wire(Unsigned(-1)) <==> v == -1
    ensures Signed(Unsigned(v)) == v
  {
    hide Wire, Unwire;
    WireRoundTrip(Unsigned(v));
    WireRoundTrip(Unsigned(-1));
  }

  lemma PayloadReads(o: Order, t: Data)
    requires t.Fd? || t.Integer? || t.Real? || t.Bool? || t.Errno?
    ensures Unwire(Wire(Payload(t))) == Payload(t)
    ensures t.Fd? ==> (Wire(Payload(t)) == Wire(Unsigned(-1)) <==> t.fd == -1)
    ensures t.Fd? && t.fd == -1 ==> Signed(Unhost(o, Wire(Payload(t)))) == -1
    ensures t.Integer? ==> Signed(Payload(t)) == t.number
  {
    hide Wire, Unwire;
    WireRoundTrip(Payload(t));
    if t.Fd? {
      MinusOne(t.fd);
      AllOnes(o);
    } else if t.Integer? {
      MinusOne(t.number);
    }
  }

  /** Minus one reads the same in either byte order. */
  lemma AllOnes(o: Order)
    ensures Signed(Unhost(o, Wire(Unsigned(-1)))) == -1
  {
    WireRoundTrip(Unsigned(-1));
    OnesDigits(8);
    WordScale();
    assert Flip(Wire(Unsigned(-1))) == Wire(Unsigned(-1));
  }

  function Ones(n: nat): seq<byte> {
    if n == 0 then [] else [0xFF] + Ones(n - 1)
  }

  lemma {:induction false} OnesDigits(n: nat)
    requires 1 <= Scale(n)
    ensures Digits(Scale(n) - 1, n) == Ones(n)
  {
    if n > 0 {
      OnesScale(n - 1);
      assert (Scale(n) - 1) % 0x100 == 0xFF && (Scale(n) - 1) / 0x100 == Scale(n - 1) - 1;
      OnesDigits(n - 1);
    }
  }

  lemma {:induction false} OnesScale(n: nat)
    ensures 1 <= Scale(n)
  {
    if n > 0 {
      OnesScale(n - 1);
    }
  }

  lemma RoundTripLeaf(o: Order, b: seq<byte>, at: nat, t: Data, fds: seq<i64>, k: nat)
    requires at + Size(t) <= |b| && Fits(t) && k + |Fds(t)| <= |fds|
    requires t.Fd? || t.Integer? || t.Real? || t.Bool? || t.Errno? || t.MachPort?
    ensures Parse(o, Image(b, at, t), at, fds, k)
         == Parsed(WithFds(WithStale(o, b, at, t), fds, k), at + Size(t), k + |Fds(t)|)
  {
    hide Wire, Unwire, Unhost, Put, Image, Same, Padded;
    HeaderReads(b, at, t);
    WireRoundTrip(Tag(t));
    if !t.MachPort? {
      PayloadReads(o, t);
    }
  }

  lemma RoundTripText(o: Order, b: seq<byte>, at: nat, t: Data, fds: seq<i64>, k: nat)
    requires at + Size(t) <= |b| && Fits(t) && k <= |fds| && (t.String? || t.Opaque?)
    ensures Parse(o, Image(b, at, t), at, fds, k) == Parsed(t, at + Size(t), k)
  {
    hide Wire, Unwire, Unhost, Put, Image, Same, Padded;
    HeaderReads(b, at, t);
    WireRoundTrip(Tag(t));
    WireRoundTrip(if t.String? then |t.chars| else |t.bytes|);
    BodyReads(b, at, t);
  }

  // ---------- What the bytes of a port say ----------

  lemma {:induction false} StaleSame(o: Order, b: seq<byte>, b': seq<byte>, at: nat, t: Data)
    requires at + Size(t) <= |b| && at + Size(t) <= |b'| && Same(b, b', at, at + Size(t))
    ensures WithStale(o, b, at, t) == WithStale(o, b', at, t)
    decreases t
  {
    hide Same, Unhost, SizeAll, WithStaleAll;
    if t.Dictionary? || t.Array? {
      SameFrom(b, b', at, at + NODE + 8 * |t.items|, at + Size(t));
      StaleSameAll(o, b, b', at + NODE + 8 * |t.items|, t.items);
    } else if t.MachPort? {
      SamePart(b, b', at, at + Size(t), at + 8, at + 16);
    }
  }

  lemma {:induction false} StaleSameAll(o: Order, b: seq<byte>, b': seq<byte>, at: nat, items: seq<Data>)
    requires at + SizeAll(items) <= |b| && at + SizeAll(items) <= |b'| && Same(b, b', at, at + SizeAll(items))
    ensures WithStaleAll(o, b, at, items) == WithStaleAll(o, b', at, items)
    decreases items
  {
    hide Same;
    if items != [] {
      SameFrom(b, b', at, at + Size(items[0]), at + SizeAll(items));
      StaleSame(o, b, b', at, items[0]);
      StaleSameAll(o, b, b', at + Size(items[0]), items[1..]);
    }
  }

  /** Writing before or after the place of a tree does not touch its ports. */
  lemma StaleKept(o: Order, b: seq<byte>, b': seq<byte>, at: nat, items: seq<Data>)
    requires at + SizeAll(items) <= |b| == |b'| && Same(b, b', at, |b|)
    ensures WithStaleAll(o, b, at, items) == WithStaleAll(o, b', at, items)
  {
    SameFrom(b, b', at, at + SizeAll(items), |b|);
    StaleSameAll(o, b, b', at, items);
  }

  /**
   Decoding a packed tree rebuilds what its bytes carry of it, with the received
   descriptors in the place of the packed ones, and consumes exactly its bytes and
   descriptors.
   */
  lemma {:induction false} RoundTrip(o: Order, b: seq<byte>, at: nat, t: Data, fds: seq<i64>, k: nat)
    requires at + Size(t) <= |b| && Fits(t) && k + |Fds(t)| <= |fds|
    ensures Parse(o, Image(b, at, t), at, fds, k)
         == Parsed(WithFds(WithStale(o, b, at, t), fds, k), at + Size(t), k + |Fds(t)|)
    decreases t
  {
    hide Wire, Unwire, Unhost, Put, Image, Same, Padded, ImageAll, ParseAll, WithFdsAll, WithStaleAll, SizeAll, FdsAll, FitsAll;
    if t.Dictionary? || t.Array? {
      HeaderReads(b, at, t);
      WireRoundTrip(Tag(t));
      WireRoundTrip(|t.items|);
      ArrayImage(b, at, t);
      var b1 := Put(b, at, Wire(Tag(t)));
      var b2 := Put(b1, at + 16, Wire(|t.items|));
      RoundTripAll(o, b2, at + NODE + 8 * |t.items|, t.items, fds, k);
      PutElsewhere(b, at, Wire(Tag(t)), at + NODE + 8 * |t.items|, |b|);
      PutElsewhere(b1, at + 16, Wire(|t.items|), at + NODE + 8 * |t.items|, |b|);
      SameTrans(b, b1, b2, at + NODE + 8 * |t.items|, |b|);
      StaleKept(o, b, b2, at + NODE + 8 * |t.items|, t.items);
    } else if t.String? || t.Opaque? {
      RoundTripText(o, b, at, t, fds, k);
    } else {
      RoundTripLeaf(o, b, at, t, fds, k);
    }
  }

  lemma ArrayImage(b: seq<byte>, at: nat, t: Data)
    requires at + Size(t) <= |b| && Fits(t) && (t.Dictionary? || t.Array?)
    ensures Image(b, at, t) ==
            ImageAll(Put(Put(b, at, Wire(Tag(t))), at + 16, Wire(|t.items|)), at + NODE + 8 * |t.items|, t.items)
  {
  }

  lemma {:induction false} RoundTripAll(o: Order, b: seq<byte>, at: nat, items: seq<Data>, fds: seq<i64>, k: nat)
    requires at + SizeAll(items) <= |b| && FitsAll(items) && k + |FdsAll(items)| <= |fds|
    ensures ParseAll(o, ImageAll(b, at, items), |items|, at, fds, k)
         == Parsed(WithFdsAll(WithStaleAll(o, b, at, items), fds, k), at + SizeAll(items), k + |FdsAll(items)|)
    decreases items
  {
    hide Parse, Image, Same, Size, Fds, Fits, WithFds, WithStale, WithStaleAll, WithFdsAll;
    FdsOfItems(o, b, at, items, fds, k);
    if items != [] {
      var head, middle := items[0], at + Size(items[0]);
      var b1 := Image(b, at, head);
      var r := ImageAll(b, at, items);
      RoundTrip(o, b, at, head, fds, k);
      ImageAllFrame(b1, middle, items[1..], at, middle);
      ParseStable(o, b1, r, at, fds, k, Parse(o, b1, at, fds, k));
      RoundTripAll(o, b1, middle, items[1..], fds, k + |Fds(head)|);
      ImageFrame(b, at, head, middle, |b|);
      StaleKept(o, b, b1, middle, items[1..]);
    }
  }

  /** The children with what the buffer held, and their descriptors, one by one. */
  lemma FdsOfItems(o: Order, b: seq<byte>, at: nat, items: seq<Data>, fds: seq<i64>, k: nat)
    requires at + SizeAll(items) <= |b| && k + |FdsAll(items)| <= |fds|
    ensures items == [] ==> WithFdsAll(WithStaleAll(o, b, at, items), fds, k) == []
    ensures items != [] ==>
      WithFdsAll(WithStaleAll(o, b, at, items), fds, k)
      == [WithFds(WithStale(o, b, at, items[0]), fds, k)]
         + WithFdsAll(WithStaleAll(o, b, at + Size(items[0]), items[1..]), fds, k + |Fds(items[0])|)
  {
    if items != [] {
      assert WithStaleAll(o, b, at, items)[1..] == WithStaleAll(o, b, at + Size(items[0]), items[1..]);
    }
  }

  /** Absent descriptors are not passed along. */
  lemma {:induction false} OnlyRealFds(t: Data)
    ensures -1 !in Fds(t)
    decreases t
  {
    if t.Dictionary? || t.Array? {
      OnlyRealFdsAll(t.items);
    }
  }

  lemma {:induction false} OnlyRealFdsAll(items: seq<Data>)
    ensures -1 !in FdsAll(items)
    decreases items
  {
    if items != [] {
      OnlyRealFds(items[0]);
      OnlyRealFdsAll(items[1..]);
    }
  }

  /** With the packed descriptors themselves, the very same tree comes back. */
  lemma {:induction false} SameFds(t: Data, fds: seq<i64>, k: nat)
    requires k + |Fds(t)| <= |fds| && fds[k..k + |Fds(t)|] == Fds(t)
    ensures WithFds(t, fds, k) == t
    decreases t
  {
    if t.Dictionary? || t.Array? {
      SameFdsAll(t.items, fds, k);
    } else if t.Fd? && t.fd != -1 {
      assert fds[k] == fds[k..k + 1][0];
    }
  }

  lemma {:induction false} SameFdsAll(items: seq<Data>, fds: seq<i64>, k: nat)
    requires k + |FdsAll(items)| <= |fds| && fds[k..k + |FdsAll(items)|] == FdsAll(items)
    ensures WithFdsAll(items, fds, k) == items
    decreases items
  {
    if items != [] {
      var n, m := |Fds(items[0])|, |FdsAll(items)|;
      assert fds[k..k + m][..n] == fds[k..k + n];
      assert fds[k..k + m][n..] == fds[k + n..k + m];
      SameFds(items[0], fds, k);
      SameFdsAll(items[1..], fds, k + n);
      assert items == [items[0]] + items[1..];
    }
  }

  // ---------- Which trees are carried whole ----------

  lemma {:induction false} NothingStale(o: Order, b: seq<byte>, at: nat, t: Data)
    requires at + Size(t) <= |b| && NoMachPorts(t)
    ensures WithStale(o, b, at, t) == t
    decreases t
  {
    if t.Dictionary? || t.Array? {
      NothingStaleAll(o, b, at + NODE + 8 * |t.items|, t.items);
    }
  }

  lemma {:induction false} NothingStaleAll(o: Order, b: seq<byte>, at: nat, items: seq<Data>)
    requires at + SizeAll(items) <= |b| && NoMachPortsAll(items)
    ensures WithStaleAll(o, b, at, items) == items
    decreases items
  {
    if items != [] {
      NothingStale(o, b, at, items[0]);
      NothingStaleAll(o, b, at + Size(items[0]), items[1..]);
    }
  }

  function Filled(n: nat, v: byte): (b: seq<byte>)
    ensures |b| == n && forall j :: 0 <= j < n ==> b[j] == v
  {
    seq(n, _ => v)
  }

  lemma WordOf(o: Order, b: seq<byte>, at: nat)
    requires at + 8 <= |b|
    ensures (forall j :: 0 <= j < |b| ==> b[j] == 0) ==> Unhost(o, At(b, at)) == 0
    ensures (forall j :: 0 <= j < |b| ==> b[j] == 0xFF) ==> Unhost(o, At(b, at)) != 0
  {
    var w := At(b, at);
    if forall j :: 0 <= j < |b| ==> b[j] == 0 {
      Zeros(w);
      Zeros(Flip(w));
    } else if forall j :: 0 <= j < |b| ==> b[j] == 0xFF {
      assert w[0] == 0xFF && Flip(w)[0] == 0xFF;
    }
  }

  lemma {:induction false} Zeros(w: seq<byte>)
    requires forall j :: 0 <= j < |w| ==> w[j] == 0
    ensures Number(w) == 0
  {
    if w != [] {
      Zeros(w[1..]);
    }
  }

  /** A tree that comes out of a buffer of zeros and out of one of ones as it went in names no port. */
  lemma {:induction false} TwoBuffers(o: Order, zeros: seq<byte>, ones: seq<byte>, at: nat, t: Data)
    requires at + Size(t) <= |zeros| && at + Size(t) <= |ones|
    requires (forall j :: 0 <= j < |zeros| ==> zeros[j] == 0) && (forall j :: 0 <= j < |ones| ==> ones[j] == 0xFF)
    requires WithStale(o, zeros, at, t) == t == WithStale(o, ones, at, t)
    ensures NoMachPorts(t)
    decreases t
  {
    if t.Dictionary? || t.Array? {
      TwoBuffersAll(o, zeros, ones, at + NODE + 8 * |t.items|, t.items);
    } else if t.MachPort? {
      WordOf(o, zeros, at + 8);
      WordOf(o, ones, at + 8);
    }
  }

  lemma {:induction false} TwoBuffersAll(o: Order, zeros: seq<byte>, ones: seq<byte>, at: nat, items: seq<Data>)
    requires at + SizeAll(items) <= |zeros| && at + SizeAll(items) <= |ones|
    requires (forall j :: 0 <= j < |zeros| ==> zeros[j] == 0) && (forall j :: 0 <= j < |ones| ==> ones[j] == 0xFF)
    requires WithStaleAll(o, zeros, at, items) == items == WithStaleAll(o, ones, at, items)
    ensures NoMachPortsAll(items)
    decreases items
  {
    if items != [] {
      var r, q := WithStaleAll(o, zeros, at, items), WithStaleAll(o, ones, at, items);
      assert r[0] == items[0] == q[0] && r[1..] == items[1..] == q[1..];
      TwoBuffers(o, zeros, ones, at, items[0]);
      TwoBuffersAll(o, zeros, ones, at + Size(items[0]), items[1..]);
    }
  }

  /** Packed into the buffer at a place and decoded with its own descriptors, the tree is what it was. */
  predicate Carried(o: Order, b: seq<byte>, at: nat, t: Data)
    requires at + Size(t) <= |b| && Fits(t)
  {
    Parse(o, Image(b, at, t), at, Fds(t), 0) == Parsed(t, at + Size(t), |Fds(t)|)
  }

  lemma CarriedIfNotStale(o: Order, b: seq<byte>, at: nat, t: Data)
    requires at + Size(t) <= |b| && Fits(t)
    ensures Carried(o, b, at, t) <==> WithStale(o, b, at, t) == t
  {
    hide Image, Parse, WithStale;
    var r := WithStale(o, b, at, t);
    RoundTrip(o, b, at, t, Fds(t), 0);
    assert Fds(t)[0..|Fds(t)|] == Fds(t);
    SameFds(r, Fds(t), 0);
  }

  /** A tree is carried whole, whatever the buffer held before, if and only if it holds no Mach port. */
  lemma CarriedExactly(o: Order, at: nat, t: Data)
    requires Fits(t)
    ensures (forall b: seq<byte> :: at + Size(t) <= |b| ==> Carried(o, b, at, t)) <==> NoMachPorts(t)
  {
    hide Carried, WithStale;
    if NoMachPorts(t) {
      forall b: seq<byte> | at + Size(t) <= |b| ensures Carried(o, b, at, t) {
        NothingStale(o, b, at, t);
        CarriedIfNotStale(o, b, at, t);
      }
    } else if forall b: seq<byte> :: at + Size(t) <= |b| ==> Carried(o, b, at, t) {
      var zeros, ones := Filled(at + Size(t), 0), Filled(at + Size(t), 0xFF);
      CarriedIfNotStale(o, zeros, at, t);
      CarriedIfNotStale(o, ones, at, t);
      TwoBuffers(o, zeros, ones, at, t);
    }
  }

  /** The tree with every port named 0. */
  function Unnamed(t: Data): (r: Data)
    ensures Size(r) == Size(t) && (Fits(r) <==> Fits(t)) && Tag(r) == Tag(t)
    decreases t
  {
    match t
    case Dictionary(items) => Dictionary(UnnamedAll(items))
    case Array(items) => Array(UnnamedAll(items))
    case MachPort(_) => MachPort(0)
    case _ => t
  }

  function UnnamedAll(items: seq<Data>): (r: seq<Data>)
    ensures |r| == |items| && SizeAll(r) == SizeAll(items) && (FitsAll(r) <==> FitsAll(items))
    decreases items
  {
    if items == [] then []
    else
      var head, tail := Unnamed(items[0]), UnnamedAll(items[1..]);
      assert ([head] + tail)[1..] == tail;
      [head] + tail
  }

  /** Trees that differ only in the names of ports pack to the same bytes. */
  lemma {:induction false} NamesArePackedAway(b: seq<byte>, at: nat, t: Data)
    requires at + Size(t) <= |b| && Fits(t)
    ensures Image(b, at, Unnamed(t)) == Image(b, at, t)
    decreases t
  {
    hide Wire, Put, Padded;
    if t.Dictionary? || t.Array? {
      var b2 := Put(Put(b, at, Wire(Tag(t))), at + 16, Wire(|t.items|));
      NamesArePackedAwayAll(b2, at + NODE + 8 * |t.items|, t.items);
    }
  }

  lemma {:induction false} NamesArePackedAwayAll(b: seq<byte>, at: nat, items: seq<Data>)
    requires at + SizeAll(items) <= |b| && FitsAll(items)
    ensures ImageAll(b, at, UnnamedAll(items)) == ImageAll(b, at, items)
    decreases items
  {
    hide Image;
    if items != [] {
      assert UnnamedAll(items)[1..] == UnnamedAll(items[1..]);
      NamesArePackedAway(b, at, items[0]);
      NamesArePackedAwayAll(Image(b, at, items[0]), at + Size(items[0]), items[1..]);
    }
  }
}
