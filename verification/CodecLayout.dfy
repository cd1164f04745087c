/**
 The bytes of a packed tree, place by place: what packing leaves and what decoding
 accepts (liblaunch/liblaunch.c, struct _launch_data).
 */
module CodecLayout {
  import opened LaunchData
  import opened CodecRoundTrip

  /** Eight bytes that stand for a number, the lowest first. */
  predicate IsWord(w: seq<int>, v: int) {
    && |w| == 8
    && v == w[0] + 0x100 * w[1] + 0x1_0000 * w[2] + 0x100_0000 * w[3] + 0x1_0000_0000 * w[4]
         + 0x100_0000_0000 * w[5] + 0x1_0000_0000_0000 * w[6] + 0x100_0000_0000_0000 * w[7]
  }

  lemma {:induction false} NumberIsWord(w: seq<byte>)
    requires |w| == 8
    ensures IsWord(w, Number(w))
  {
    var w1 := w[1..];
    var w2 := w1[1..];
    var w3 := w2[1..];
    var w4 := w3[1..];
    var w5 := w4[1..];
    var w6 := w5[1..];
    var w7 := w6[1..];
    assert w7 == [w[7]] && w7[1..] == [];
    assert Number(w7) == w[7];
    assert Number(w6) == w[6] + 0x100 * Number(w7);
    assert Number(w5) == w[5] + 0x100 * Number(w6);
    assert Number(w4) == w[4] + 0x100 * Number(w5);
    assert Number(w3) == w[3] + 0x100 * Number(w4);
    assert Number(w2) == w[2] + 0x100 * Number(w3);
    assert Number(w1) == w[1] + 0x100 * Number(w2);
  }

  /** A word on the wire has its lowest byte first. */
  lemma WireIsWord(v: u64)
    ensures IsWord(Wire(v), v)
  {
    hide Wire;
    WireRoundTrip(v);
    NumberIsWord(Wire(v));
  }

  lemma UnwireIsWord(w: seq<byte>)
    requires |w| == 8
    ensures IsWord(w, Unwire(w))
  {
    NumberIsWord(w);
  }

  /** A word in memory has its lowest byte first on a little-endian machine, last on a big-endian one. */
  lemma UnhostIsWord(w: seq<byte>)
    requires |w| == 8
    ensures IsWord(w, Unhost(LittleEndian, w))
    ensures IsWord([w[7], w[6], w[5], w[4], w[3], w[2], w[1], w[0]], Unhost(BigEndian, w))
  {
    hide Unwire;
    UnwireIsWord(w);
    UnwireIsWord(Flip(w));
  }

  /** All zero from one place to another. */
  predicate Zero(b: seq<byte>, lo: nat, hi: nat) {
    hi <= |b| && forall j :: lo <= j < hi ==> b[j] == 0
  }

  /** The word of a place. */
  predicate HasWord(b: seq<byte>, at: nat, v: int) {
    at + 8 <= |b| && IsWord(b[at..at + 8], v)
  }

  /** The bytes of text, and if it is sealed zeros up to the end of its node. */
  predicate HasText(b: seq<byte>, at: nat, s: seq<byte>, end: nat, sealed: bool) {
    && at + |s| <= end <= |b| && b[at..at + |s|] == s
    && (sealed ==> Zero(b, at + |s|, end))
  }

  /** The count of a container, and room for its slots. */
  predicate HasCount(b: seq<byte>, at: nat, items: seq<Data>) {
    HasWord(b, at + 16, |items|) && at + 24 + 8 * |items| <= |b|
  }

  /**
   The tree in its bytes: the type in the first word, a number in the second, a count in
   the third, text behind them, members behind the slots of their container, one after
   another.  A packed tree is `sealed` as well: its descriptors are in their words, and
   text is followed by a terminator and zeros up to a multiple of eight.
   */
  predicate Laid(b: seq<byte>, at: nat, t: Data, sealed: bool)
    decreases t
  {
    && at + 24 <= |b|
    && match t
       case Dictionary(items) => HasWord(b, at, 1) && HasCount(b, at, items) && LaidAll(b, at + 24 + 8 * |items|, items, sealed)
       case Array(items) => HasWord(b, at, 2) && HasCount(b, at, items) && LaidAll(b, at + 24 + 8 * |items|, items, sealed)
       case Fd(fd) => HasWord(b, at, 3) && (sealed ==> HasWord(b, at + 8, if 0 <= fd then fd else fd + 0x1_0000_0000_0000_0000))
       case Integer(n) => HasWord(b, at, 4) && HasWord(b, at + 8, if 0 <= n then n else n + 0x1_0000_0000_0000_0000)
       case Real(bits) => HasWord(b, at, 5) && HasWord(b, at + 8, bits)
       case Bool(v) => HasWord(b, at, 6) && HasWord(b, at + 8, v)
       case String(s) => HasWord(b, at, 7) && HasWord(b, at + 16, |s|) && HasText(b, at + 24, s, at + 24 + (|s| + 8) / 8 * 8, sealed)
       case Opaque(s) => HasWord(b, at, 8) && HasWord(b, at + 16, |s|) && HasText(b, at + 24, s, at + 24 + (|s| + 7) / 8 * 8, sealed)
       case Errno(e) => HasWord(b, at, 9) && HasWord(b, at + 8, e)
       case MachPort(_) => HasWord(b, at, 10)
  }

  predicate LaidAll(b: seq<byte>, at: nat, items: seq<Data>, sealed: bool)
    decreases items
  {
    items == [] || (Laid(b, at, items[0], sealed) && LaidAll(b, at + Size(items[0]), items[1..], sealed))
  }

  /** The type codes, from 1 on in the order of launch_data_type_t. */
  lemma TagsInOrder(items: seq<Data>, s: seq<byte>, n: i64, v: u64)
    ensures [Tag(Dictionary(items)), Tag(Array(items)), Tag(Fd(n)), Tag(Integer(n)), Tag(Real(v)), Tag(Bool(v)),
             Tag(String(s)), Tag(Opaque(s)), Tag(Errno(v)), Tag(MachPort(v))] == [1, 2, 3, 4, 5, 6, 7, 8, 9, 10]
  {
  }

  // ---------- Sizes ----------

  /** Every node takes a multiple of eight bytes, so that all words are aligned. */
  lemma {:induction false} SizeIsAligned(t: Data)
    ensures Size(t) % 8 == 0
    decreases t
  {
    if t.Dictionary? || t.Array? {
      SizeAllIsAligned(t.items);
    }
  }

  lemma {:induction false} SizeAllIsAligned(items: seq<Data>)
    ensures SizeAll(items) % 8 == 0
    decreases items
  {
    if items != [] {
      SizeIsAligned(items[0]);
      SizeAllIsAligned(items[1..]);
    }
  }

  /** The size of a node by its kind. */
  lemma TextSize(t: Data)
    ensures t.String? ==> Size(t) == 24 + (|t.chars| + 8) / 8 * 8
    ensures t.Opaque? ==> Size(t) == 24 + (|t.bytes| + 7) / 8 * 8
    ensures t.Dictionary? || t.Array? ==> Size(t) == 24 + 8 * |t.items| + SizeAll(t.items)
    ensures !t.String? && !t.Opaque? && !t.Dictionary? && !t.Array? ==> Size(t) == 24
  {
  }

  // ---------- The layout depends on its own bytes, wherever they lie ----------

  lemma {:induction false} LaidShifted(b: seq<byte>, b': seq<byte>, shift: nat, at: nat, t: Data, sealed: bool)
    requires Laid(b, at, t, sealed) && at + Size(t) <= |b| && shift + at + Size(t) <= |b'|
    requires b'[shift + at..shift + at + Size(t)] == b[at..at + Size(t)]
    ensures Laid(b', shift + at, t, sealed)
    decreases t
  {
    hide LaidAll, IsWord;
    var end := at + Size(t);
    TextSize(t);
    ShiftedPart(b, b', shift, at, end, at, at + 8);
    ShiftedPart(b, b', shift, at, end, at + 8, at + 16);
    ShiftedPart(b, b', shift, at, end, at + 16, at + 24);
    if t.Dictionary? || t.Array? {
      ShiftedPart(b, b', shift, at, end, at + 24 + 8 * |t.items|, end);
      LaidAllShifted(b, b', shift, at + 24 + 8 * |t.items|, t.items, sealed);
    } else if t.String? {
      TextShifted(b, b', shift, at + 24, t.chars, end, sealed, at);
    } else if t.Opaque? {
      TextShifted(b, b', shift, at + 24, t.bytes, end, sealed, at);
    }
  }

  lemma TextShifted(b: seq<byte>, b': seq<byte>, shift: nat, at: nat, s: seq<byte>, end: nat, sealed: bool, lo: nat)
    requires HasText(b, at, s, end, sealed) && lo <= at && shift + end <= |b'|
    requires b'[shift + lo..shift + end] == b[lo..end]
    ensures HasText(b', shift + at, s, shift + end, sealed)
  {
    ShiftedPart(b, b', shift, lo, end, at, at + |s|);
    if sealed {
      forall j | shift + at + |s| <= j < shift + end ensures b'[j] == 0 {
        assert b[lo..end][j - shift - lo] == b'[shift + lo..shift + end][j - shift - lo];
        assert b[j - shift] == 0;
      }
    }
  }

  lemma {:induction false} LaidAllShifted(b: seq<byte>, b': seq<byte>, shift: nat, at: nat, items: seq<Data>, sealed: bool)
    requires LaidAll(b, at, items, sealed) && at + SizeAll(items) <= |b| && shift + at + SizeAll(items) <= |b'|
    requires b'[shift + at..shift + at + SizeAll(items)] == b[at..at + SizeAll(items)]
    ensures LaidAll(b', shift + at, items, sealed)
    decreases items
  {
    hide Laid;
    if items != [] {
      var middle, end := at + Size(items[0]), at + SizeAll(items);
      ShiftedPart(b, b', shift, at, end, at, middle);
      ShiftedPart(b, b', shift, at, end, middle, end);
      LaidShifted(b, b', shift, at, items[0], sealed);
      LaidAllShifted(b, b', shift, middle, items[1..], sealed);
    }
  }

  // ---------- What packing leaves ----------

  /** Packing leaves the tree laid out in its bytes, padding and terminators included. */
  lemma {:induction false} ImageIsLaid(b: seq<byte>, at: nat, t: Data)
    requires at + Size(t) <= |b| && Fits(t)
    ensures Laid(Image(b, at, t), at, t, true)
    decreases t
  {
    hide Wire, Image, IsWord, HasText, LaidAll;
    var r := Image(b, at, t);
    HeaderReads(b, at, t);
    WireIsWord(Tag(t));
    TextSize(t);
    if t.Dictionary? || t.Array? {
      WireIsWord(|t.items|);
      ArrayImage(b, at, t);
      var b2 := Put(Put(b, at, Wire(Tag(t))), at + 16, Wire(|t.items|));
      ImageAllIsLaid(b2, at + NODE + 8 * |t.items|, t.items);
    } else if t.String? || t.Opaque? {
      WireIsWord(if t.String? then |t.chars| else |t.bytes|);
      TextIsLaid(b, at, t);
    } else if !t.MachPort? {
      WireIsWord(Payload(t));
    }
  }

  lemma TextIsLaid(b: seq<byte>, at: nat, t: Data)
    requires at + Size(t) <= |b| && Fits(t) && (t.String? || t.Opaque?)
    ensures HasText(Image(b, at, t), at + 24, if t.String? then t.chars else t.bytes, at + Size(t), true)
  {
    hide Wire;
    var s := if t.String? then t.chars else t.bytes;
    var b2 := Put(Put(b, at, Wire(Tag(t))), at + 16, Wire(|s|));
    var w := if t.String? then Padded(s + [0]) else Padded(s);
    PutReads(b2, at + NODE, w);
    var r := Image(b, at, t);
    assert r[at + NODE..at + NODE + |w|] == w && |w| == Size(t) - NODE;
    assert r[at + 24..at + 24 + |s|] == w[..|s|] == s;
    forall j | at + 24 + |s| <= j < at + Size(t) ensures r[j] == 0 {
      assert r[j] == w[j - at - 24];
    }
  }

  lemma {:induction false} ImageAllIsLaid(b: seq<byte>, at: nat, items: seq<Data>)
    requires at + SizeAll(items) <= |b| && FitsAll(items)
    ensures LaidAll(ImageAll(b, at, items), at, items, true)
    decreases items
  {
    hide Image, Laid, Same, Size, Fits;
    if items != [] {
      var middle := at + Size(items[0]);
      var b1 := Image(b, at, items[0]);
      ImageIsLaid(b, at, items[0]);
      ImageAllFrame(b1, middle, items[1..], at, middle);
      SamePart(b1, ImageAll(b, at, items), at, middle, at, middle);
      LaidShifted(b1, ImageAll(b, at, items), 0, at, items[0], true);
      ImageAllIsLaid(b1, middle, items[1..]);
    }
  }

  // ---------- What decoding accepts ----------

  /** Text that is decoded lies behind its node. */
  lemma ParsedText(o: Order, b: seq<byte>, at: nat, fds: seq<i64>, k: nat)
    requires at <= |b| && Parse(o, b, at, fds, k).Parsed? && (Unwire(At(b, at)) == 7 || Unwire(At(b, at)) == 8)
    ensures var p := Parse(o, b, at, fds, k);
            p.next == at + Size(p.value) && Laid(b, at, p.value, false)
  {
    hide Unwire, IsWord, Unhost, ParseAll;
    UnwireIsWord(At(b, at));
    UnwireIsWord(At(b, at + 16));
  }

  /** A number that is decoded is in its word. */
  lemma ParsedNumber(o: Order, b: seq<byte>, at: nat, fds: seq<i64>, k: nat)
    requires at <= |b| && Parse(o, b, at, fds, k).Parsed? && 3 <= Unwire(At(b, at)) && Unwire(At(b, at)) !in [7, 8]
    ensures var p := Parse(o, b, at, fds, k);
            p.next == at + Size(p.value) && Laid(b, at, p.value, false)
  {
    hide Unwire, IsWord, Unhost, ParseAll, Signed, Round, Wire;
    UnwireIsWord(At(b, at));
    UnwireIsWord(At(b, at + 8));
    SignedWord(Unwire(At(b, at + 8)));
  }

  /** Whatever is decoded is laid out in the bytes consumed, and exactly its size of them is consumed. */
  lemma {:induction false} ParsedIsLaid(o: Order, b: seq<byte>, at: nat, fds: seq<i64>, k: nat)
    requires at <= |b| && Parse(o, b, at, fds, k).Parsed?
    ensures var p := Parse(o, b, at, fds, k);
            p.next == at + Size(p.value) && Laid(b, at, p.value, false)
    decreases |b| - at, 0
  {
    hide Unwire, Unhost, ParseAll, IsWord, LaidAll, Signed, Unsigned, Wire, Round;
    var tag := Unwire(At(b, at));
    if tag == 1 || tag == 2 {
      UnwireIsWord(At(b, at));
      UnwireIsWord(At(b, at + 16));
      ParsedAllIsLaid(o, b, Unwire(At(b, at + 16)), at + NODE + 8 * Unwire(At(b, at + 16)), fds, k);
    } else if tag == 7 || tag == 8 {
      ParsedText(o, b, at, fds, k);
    } else {
      ParsedNumber(o, b, at, fds, k);
    }
  }

  lemma SignedWord(v: u64)
    ensures var n := Signed(v); v == if 0 <= n then n else n + 0x1_0000_0000_0000_0000
  {
  }

  lemma {:induction false} ParsedAllIsLaid(o: Order, b: seq<byte>, n: nat, at: nat, fds: seq<i64>, k: nat)
    requires at <= |b| && ParseAll(o, b, n, at, fds, k).Parsed?
    ensures var p := ParseAll(o, b, n, at, fds, k);
            p.next == at + SizeAll(p.value) && LaidAll(b, at, p.value, false)
    decreases |b| - at, n + 1
  {
    hide Parse, Laid;
    if n > 0 {
      var head := Parse(o, b, at, fds, k);
      var tail := ParseAll(o, b, n - 1, head.next, fds, head.k);
      ParsedIsLaid(o, b, at, fds, k);
      ParsedAllIsLaid(o, b, n - 1, head.next, fds, head.k);
      assert ([head.value] + tail.value)[1..] == tail.value;
    }
  }

  /** So decoding from an aligned place ends on an aligned place. */
  lemma ParsedIsAligned(o: Order, b: seq<byte>, at: nat, fds: seq<i64>, k: nat)
    requires at <= |b| && Parse(o, b, at, fds, k).Parsed? && at % 8 == 0
    ensures Parse(o, b, at, fds, k).next % 8 == 0
  {
    hide Parse, Laid, Size;
    ParsedIsLaid(o, b, at, fds, k);
    SizeIsAligned(Parse(o, b, at, fds, k).value);
  }

  lemma {:induction false} ParsedFits(o: Order, b: seq<byte>, at: nat, fds: seq<i64>, k: nat)
    requires at <= |b| && Parse(o, b, at, fds, k).Parsed?
    ensures Fits(Parse(o, b, at, fds, k).value)
    decreases |b| - at, 0
  {
    hide Unwire, Unhost, ParseAll, Signed, Unsigned, Wire, Round;
    var count: nat := Unwire(At(b, at + 16));
    if Unwire(At(b, at)) == 1 || Unwire(At(b, at)) == 2 {
      ParsedAllFits(o, b, count, at + NODE + 8 * count, fds, k);
    }
  }

  lemma {:induction false} ParsedAllFits(o: Order, b: seq<byte>, n: nat, at: nat, fds: seq<i64>, k: nat)
    requires at <= |b| && ParseAll(o, b, n, at, fds, k).Parsed?
    ensures FitsAll(ParseAll(o, b, n, at, fds, k).value)
    decreases |b| - at, n + 1
  {
    hide Parse, Fits;
    if n > 0 {
      var head := Parse(o, b, at, fds, k);
      var tail := ParseAll(o, b, n - 1, head.next, fds, head.k);
      ParsedFits(o, b, at, fds, k);
      ParsedAllFits(o, b, n - 1, head.next, fds, head.k);
      assert ([head.value] + tail.value)[1..] == tail.value;
    }
  }

  /** Bytes in which a tree is laid out are decoded. */
  lemma {:induction false} LaidIsParsed(o: Order, b: seq<byte>, at: nat, t: Data, fds: seq<i64>, k: nat)
    requires at <= |b| && Laid(b, at, t, false) && Fits(t)
    ensures var p := Parse(o, b, at, fds, k); p.Parsed? && p.next == at + Size(t)
    decreases t
  {
    hide Unwire, Unhost, ParseAll, IsWord, LaidAll, Signed, Unsigned, Wire, FitsAll, SizeAll;
    WordIs(b, at);
    WordIs(b, at + 16);
    if t.Dictionary? || t.Array? {
      LaidAllIsParsed(o, b, at + 24 + 8 * |t.items|, t.items, fds, k);
    }
  }

  lemma WordIs(b: seq<byte>, at: nat)
    requires at + 8 <= |b|
    ensures forall v :: HasWord(b, at, v) ==> v == Unwire(At(b, at))
  {
    hide Unwire;
    UnwireIsWord(At(b, at));
  }

  lemma {:induction false} LaidAllIsParsed(o: Order, b: seq<byte>, at: nat, items: seq<Data>, fds: seq<i64>, k: nat)
    requires at <= |b| && LaidAll(b, at, items, false) && FitsAll(items)
    ensures var p := ParseAll(o, b, |items|, at, fds, k); p.Parsed? && p.next == at + SizeAll(items)
    decreases items
  {
    hide Parse, Laid, Fits, Size;
    if items != [] {
      LaidIsParsed(o, b, at, items[0], fds, k);
      var head := Parse(o, b, at, fds, k);
      LaidAllIsParsed(o, b, head.next, items[1..], fds, head.k);
    }
  }

  /** The decoder accepts exactly the bytes in which some tree is laid out. */
  lemma AcceptedExactly(o: Order, b: seq<byte>, at: nat, fds: seq<i64>, k: nat)
    requires at <= |b|
    ensures Parse(o, b, at, fds, k).Parsed? <==> exists t :: Fits(t) && Laid(b, at, t, false)
  {
    hide Parse, Laid, Fits, Size;
    if Parse(o, b, at, fds, k).Parsed? {
      ParsedIsLaid(o, b, at, fds, k);
      ParsedFits(o, b, at, fds, k);
    } else if t :| Fits(t) && Laid(b, at, t, false) {
      LaidIsParsed(o, b, at, t, fds, k);
    }
  }
}
