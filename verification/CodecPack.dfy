/**
 launch_data_pack as it works on the buffer, filling it through a moving offset.
 */
module CodecPack {
  import opened Lists
  import opened LaunchData
  import opened CodecRoundTrip
  import opened CodecLayout

  lemma PutNothing(b: seq<byte>, at: nat)
    requires at <= |b|
    ensures Put(b, at, []) == b
  {
  }

  lemma PutMore(b: seq<byte>, at: nat, w: seq<byte>, j: nat)
    requires j < |w| && at + |w| <= |b|
    ensures Put(b, at, w[..j + 1]) == Put(b, at, w[..j])[at + j := w[j]]
  {
  }

  /** memcpy into the buffer. */
  method Store(buf: array<byte>, at: nat, w: seq<byte>)
    requires at + |w| <= buf.Length
    modifies buf
    ensures buf[..] == Put(old(buf[..]), at, w)
  {
    hide Put;
    ghost var b0 := buf[..];
    PutNothing(b0, at);
    for j := 0 to |w|
      invariant buf[..] == Put(b0, at, w[..j])
    {
      PutMore(b0, at, w, j);
      buf[at + j] := w[j];
    }
    assert w[..|w|] == w;
  }

  lemma PutTwice(b: seq<byte>, at: nat, v: seq<byte>, w: seq<byte>)
    requires at + |v| + |w| <= |b|
    ensures Put(Put(b, at, v), at + |v|, w) == Put(b, at, v + w)
  {
  }

  // ---------- Packing ----------

  /** Two buffers agree outside a window. */
  predicate Outside(b: seq<byte>, b': seq<byte>, at: nat, len: nat) {
    |b'| == |b| && at + len <= |b| && b'[..at] == b[..at] && b'[at + len..] == b[at + len..]
  }

  lemma PutInside(b: seq<byte>, c: seq<byte>, at: nat, len: nat, x: nat, w: seq<byte>)
    requires Outside(b, c, at, len) && at <= x && x + |w| <= at + len
    ensures Outside(b, Put(c, x, w), at, len)
  {
  }

  lemma Narrower(b: seq<byte>, c: seq<byte>, d: seq<byte>, at: nat, len: nat, x: nat, n: nat)
    requires Outside(b, c, at, len) && Outside(c, d, x, n) && at <= x && x + n <= at + len
    ensures Outside(b, d, at, len)
  {
    assert d[..at] == d[..x][..at] && c[..at] == c[..x][..at];
    assert d[at + len..] == d[x + n..][at + len - x - n..] && c[at + len..] == c[x + n..][at + len - x - n..];
  }

  lemma {:induction false} SizeAllAt(items: seq<Data>)
    requires items != []
    ensures SizeAll(items) == Size(items[0]) + SizeAll(items[1..])
    ensures FdsAll(items) == Fds(items[0]) + FdsAll(items[1..])
    ensures FitsAll(items) ==> Fits(items[0]) && FitsAll(items[1..])
  {
  }

  /** String and opaque data: its bytes, then zeros up to the next multiple of eight. */
  method StorePadded(buf: array<byte>, at: nat, s: seq<byte>)
    requires at + Round(|s|) <= buf.Length
    modifies buf
    ensures buf[..] == Put(old(buf[..]), at, Padded(s))
    ensures at + (|s| + 7) / 8 * 8 <= buf.Length && buf[at..at + |s|] == s
    ensures forall j :: at + |s| <= j < at + (|s| + 7) / 8 * 8 ==> buf[j] == 0
  {
    hide Put;
    Store(buf, at, s);
    var zeros := seq(Round(|s|) - |s|, _ => 0);
    Store(buf, at + |s|, zeros);
    PutTwice(old(buf[..]), at, s, zeros);
    PaddedBytes(old(buf[..]), at, s);
    assert buf[at..at + |s|] == buf[..][at..at + |s|];
  }

  lemma PaddedBytes(b: seq<byte>, at: nat, s: seq<byte>)
    requires at + Round(|s|) <= |b|
    ensures var r := Put(b, at, Padded(s));
            && at + (|s| + 7) / 8 * 8 <= |r| && r[at..at + |s|] == s
            && forall j :: at + |s| <= j < at + (|s| + 7) / 8 * 8 ==> r[j] == 0
  {
    var r := Put(b, at, Padded(s));
    PutReads(b, at, Padded(s));
    assert r[at..at + |s|] == r[at..at + |Padded(s)|][..|s|];
    forall j | at + |s| <= j < at + Round(|s|) ensures r[j] == 0 {
      assert r[j] == r[at..at + |Padded(s)|][j - at];
    }
  }

  /**
   launch_data_pack: the packed size, or 0 if it exceeds `len`, with the tree laid out in
   its bytes; descriptors are appended to `fds`, if it is given, of which `cnt` are in use.
   */
  method Pack(t: Data, buf: array<byte>, at: nat, len: nat, fds: array?<i64>, cnt: nat) returns (size: nat, cnt': nat)
    requires at + len <= buf.Length && Fits(t)
    requires fds != null ==> cnt + |Fds(t)| <= fds.Length
    modifies buf, fds
    ensures size == if Size(t) <= len then Size(t) else 0
    ensures size != 0 ==> buf[..] == Image(old(buf[..]), at, t) && Laid(buf[..], at, t, true)
    ensures Outside(old(buf[..]), buf[..], at, len)
    ensures fds == null ==> cnt' == cnt
    ensures fds != null ==> cnt <= cnt' <= cnt + |Fds(t)|
    ensures fds != null && size != 0 ==> cnt' == cnt + |Fds(t)| && fds[cnt..cnt'] == Fds(t)
    ensures fds != null ==> fds[..cnt] == old(fds[..cnt]) && fds[cnt'..] == old(fds[cnt'..])
    decreases t
  {
    hide Wire, Put, Padded, Outside, Image, ImageAll, Laid;
    cnt' := cnt;
    ghost var b0 := buf[..];
    assert Outside(b0, b0, at, len) by {
      OutsideItself(b0, at, len);
    }
    if NODE > len {
      return 0, cnt;
    }
    Store(buf, at, Wire(Tag(t)));
    PutInside(b0, b0, at, len, at, Wire(Tag(t)));
    ghost var b1 := buf[..];
    size := NODE;
    match t
    case Fd(fd) =>
      Store(buf, at + 8, Wire(Unsigned(fd)));
      PutInside(b0, b1, at, len, at + 8, Wire(Unsigned(fd)));
      ImageCases(b0, at, t);
      if fds != null && fd != -1 {
        fds[cnt] := fd;
        cnt' := cnt + 1;
      }
    case Integer(n) =>
      Store(buf, at + 8, Wire(Unsigned(n)));
      PutInside(b0, b1, at, len, at + 8, Wire(Unsigned(n)));
      ImageCases(b0, at, t);
    case Real(bits) =>
      Store(buf, at + 8, Wire(bits));
      PutInside(b0, b1, at, len, at + 8, Wire(bits));
      ImageCases(b0, at, t);
    case Bool(v) =>
      Store(buf, at + 8, Wire(v));
      PutInside(b0, b1, at, len, at + 8, Wire(v));
      ImageCases(b0, at, t);
    case Errno(e) =>
      Store(buf, at + 8, Wire(e));
      PutInside(b0, b1, at, len, at + 8, Wire(e));
      ImageCases(b0, at, t);
    case MachPort(_) =>
      ImageCases(b0, at, t);
    case String(s) =>
      size := PackText(s, s + [0], buf, at, len);
      Narrower(b0, b1, buf[..], at, len, at, len);
      if size != 0 {
        ImageCases(b0, at, t);
      }
    case Opaque(s) =>
      size := PackText(s, s, buf, at, len);
      Narrower(b0, b1, buf[..], at, len, at, len);
      if size != 0 {
        ImageCases(b0, at, t);
      }
    case Dictionary(items) =>
      size, cnt' := PackItems(t, buf, at, len, fds, cnt);
      Narrower(b0, b1, buf[..], at, len, at, len);
      if size != 0 {
        ImageCases(b0, at, t);
      }
    case Array(items) =>
      size, cnt' := PackItems(t, buf, at, len, fds, cnt);
      Narrower(b0, b1, buf[..], at, len, at, len);
      if size != 0 {
        ImageCases(b0, at, t);
      }
  }

  /** The text cases of launch_data_pack, once the type is stored: the length, then the text as it is to be padded. */
  method PackText(s: seq<byte>, text: seq<byte>, buf: array<byte>, at: nat, len: nat) returns (size: nat)
    requires |s| < 0x1_0000_0000_0000_0000 && NODE <= len && at + len <= buf.Length
    modifies buf
    ensures size == if NODE + Round(|text|) <= len then NODE + Round(|text|) else 0
    ensures size != 0 ==> buf[..] == Put(Put(old(buf[..]), at + 16, Wire(|s|)), at + NODE, Padded(text))
    ensures Outside(old(buf[..]), buf[..], at, len)
  {
    hide Wire, Put, Padded, Outside;
    ghost var b0 := buf[..];
    OutsideItself(b0, at, len);
    Store(buf, at + 16, Wire(|s|));
    PutInside(b0, b0, at, len, at + 16, Wire(|s|));
    ghost var b1 := buf[..];
    size := NODE + Round(|text|);
    if size > len {
      return 0;
    }
    StorePadded(buf, at + NODE, text);
    PutInside(b0, b1, at, len, at + NODE, Padded(text));
  }

  lemma OutsideItself(b: seq<byte>, at: nat, len: nat)
    requires at + len <= |b|
    ensures Outside(b, b, at, len)
  {
  }

  lemma ImageCases(b: seq<byte>, at: nat, t: Data)
    requires at + Size(t) <= |b| && Fits(t)
    ensures var c := Put(b, at, Wire(Tag(t)));
            Image(b, at, t) ==
            match t
            case Dictionary(items) => ImageAll(Put(c, at + 16, Wire(|items|)), at + NODE + 8 * |items|, items)
            case Array(items) => ImageAll(Put(c, at + 16, Wire(|items|)), at + NODE + 8 * |items|, items)
            case String(s) => Put(Put(c, at + 16, Wire(|s|)), at + NODE, Padded(s + [0]))
            case Opaque(s) => Put(Put(c, at + 16, Wire(|s|)), at + NODE, Padded(s))
            case MachPort(_) => c
            case _ => Put(c, at + 8, Wire(Payload(t)))
    ensures Laid(Image(b, at, t), at, t, true)
  {
    hide Wire, Put, Padded, Laid, ImageAll;
    ImageIsLaid(b, at, t);
  }

  lemma ImageAllStep(b: seq<byte>, at: nat, items: seq<Data>)
    requires at + SizeAll(items) <= |b| && FitsAll(items)
    ensures items == [] ==> ImageAll(b, at, items) == b
    ensures items != [] ==> at + Size(items[0]) <= |b|
    ensures items != [] ==> ImageAll(b, at, items) == ImageAll(Image(b, at, items[0]), at + Size(items[0]), items[1..])
  {
  }

  /** The container case of launch_data_pack, once the type is stored. */
  method PackItems(t: Data, buf: array<byte>, at: nat, len: nat, fds: array?<i64>, cnt: nat) returns (size: nat, cnt': nat)
    requires (t.Dictionary? || t.Array?) && Fits(t) && NODE <= len && at + len <= buf.Length
    requires fds != null ==> cnt + |Fds(t)| <= fds.Length
    modifies buf, fds
    ensures size == if Size(t) <= len then Size(t) else 0
    ensures size != 0 ==> buf[..] == ImageAll(Put(old(buf[..]), at + 16, Wire(|t.items|)), at + NODE + 8 * |t.items|, t.items)
    ensures Outside(old(buf[..]), buf[..], at, len)
    ensures fds == null ==> cnt' == cnt
    ensures fds != null ==> cnt <= cnt' <= cnt + |Fds(t)|
    ensures fds != null && size != 0 ==> cnt' == cnt + |Fds(t)| && fds[cnt..cnt'] == Fds(t)
    ensures fds != null ==> fds[..cnt] == old(fds[..cnt]) && fds[cnt'..] == old(fds[cnt'..])
    decreases t, 0
  {
    hide Wire, Put, Padded, Outside, Image, ImageAll, Size, SizeAll, Fds, FdsAll, Fits, FitsAll, Laid;
    var items := t.items;
    Container(t);
    ghost var b0 := buf[..];
    cnt' := cnt;
    OutsideItself(b0, at, len);
    Store(buf, at + 16, Wire(|items|));
    PutInside(b0, b0, at, len, at + 16, Wire(|items|));
    ghost var b1 := buf[..];
    size := NODE + 8 * |items|;
    if size > len {
      return 0, cnt;
    }
    ghost var start := at + size;
    ghost var f0 := if fds == null then [] else fds[..];
    hide Appended;
    if fds != null {
      NoneAppended(f0, cnt, items);
    }
    for i := 0 to |items|
      invariant size <= len && at + size + SizeAll(items[i..]) == start + SizeAll(items) && FitsAll(items[i..])
      invariant Size(t) <= len ==> ImageAll(b1, start, items) == ImageAll(buf[..], at + size, items[i..])
      invariant Outside(b0, buf[..], at, len)
      invariant if fds == null then cnt' == cnt else Appended(f0, fds[..], cnt, cnt', items, i)
    {
      SizeAllAt(items[i..]);
      ghost var b2, f2, used := buf[..], if fds == null then [] else fds[..], cnt';
      if fds != null {
        AppendedRoom(f0, f2, cnt, used, items, i);
      }
      if Size(t) <= len {
        ImageAllStep(b2, at + size, items[i..]);
      }
      var rsz, c := Pack(items[i], buf, at + size, len - size, fds, cnt');
      Narrower(b0, b2, buf[..], at, len, at + size, len - size);
      if fds != null {
        AppendedMore(f0, f2, fds[..], cnt, used, c, items, i);
      }
      if rsz == 0 {
        return 0, c;
      }
      size, cnt' := size + rsz, c;
      assert items[i..][1..] == items[i + 1..];
    }
    assert items[|items|..] == [] && SizeAll(items[|items|..]) == 0 by {
      NoItems();
    }
    if Size(t) <= len {
      ImageAllStep(buf[..], at + size, items[|items|..]);
    }
    if fds != null {
      AppendedAll(f0, fds[..], cnt, cnt', items);
    }
  }

  lemma Container(t: Data)
    requires t.Dictionary? || t.Array?
    ensures Size(t) == NODE + 8 * |t.items| + SizeAll(t.items) && Fds(t) == FdsAll(t.items)
    ensures Fits(t) ==> FitsAll(t.items) && 8 * |t.items| < 0x1_0000_0000_0000_0000
  {
  }

  lemma NoItems()
    ensures SizeAll([]) == 0
  {
  }

  /** The descriptors of the first i items have been appended. */
  predicate Appended(f0: seq<i64>, f: seq<i64>, cnt: nat, mid: nat, items: seq<Data>, i: nat) {
    && i <= |items| && |f| == |f0| && cnt <= mid <= |f|
    && mid + |FdsAll(items[i..])| == cnt + |FdsAll(items)|
    && f[cnt..mid] + FdsAll(items[i..]) == FdsAll(items)
    && f[..cnt] == f0[..cnt] && f[mid..] == f0[mid..]
  }

  lemma NoneAppended(f: seq<i64>, cnt: nat, items: seq<Data>)
    requires cnt <= |f|
    ensures Appended(f, f, cnt, cnt, items, 0)
  {
    assert items[0..] == items;
  }

  lemma AppendedRoom(f0: seq<i64>, f: seq<i64>, cnt: nat, mid: nat, items: seq<Data>, i: nat)
    requires Appended(f0, f, cnt, mid, items, i) && i < |items|
    ensures mid + |Fds(items[i])| <= cnt + |FdsAll(items)| && cnt <= mid
  {
    SizeAllAt(items[i..]);
  }

  lemma AppendedMore(f0: seq<i64>, f: seq<i64>, f': seq<i64>, cnt: nat, mid: nat, c: nat, items: seq<Data>, i: nat)
    requires Appended(f0, f, cnt, mid, items, i) && i < |items|
    requires |f'| == |f| && mid <= c <= mid + |Fds(items[i])| && c <= |f|
    requires f'[..mid] == f[..mid] && f'[c..] == f[c..]
    ensures cnt <= c <= cnt + |FdsAll(items)| && f'[..cnt] == f0[..cnt] && f'[c..] == f0[c..]
    ensures c == mid + |Fds(items[i])| && f'[mid..c] == Fds(items[i]) ==> Appended(f0, f', cnt, c, items, i + 1)
  {
    hide Fds, FdsAll;
    SizeAllAt(items[i..]);
    assert items[i..][1..] == items[i + 1..];
    FdsAppended(f, f', f0, cnt, mid, c);
    Assoc(f[cnt..mid], f'[mid..c], FdsAll(items[i + 1..]));
  }

  lemma AppendedAll(f0: seq<i64>, f: seq<i64>, cnt: nat, mid: nat, items: seq<Data>)
    requires Appended(f0, f, cnt, mid, items, |items|)
    ensures mid == cnt + |FdsAll(items)| && f[cnt..mid] == FdsAll(items)
    ensures f[..cnt] == f0[..cnt] && f[mid..] == f0[mid..]
  {
    assert items[|items|..] == [];
  }

  /** What a nested call does to the descriptors, seen from its caller. */
  lemma FdsAppended(before: seq<i64>, after: seq<i64>, first: seq<i64>, cnt: nat, mid: nat, c: nat)
    requires |before| == |after| == |first| && cnt <= mid <= c <= |before|
    requires after[..mid] == before[..mid] && after[c..] == before[c..]
    requires before[..cnt] == first[..cnt] && before[mid..] == first[mid..]
    ensures after[..cnt] == first[..cnt] && after[c..] == first[c..]
    ensures after[cnt..c] == before[cnt..mid] + after[mid..c]
  {
    assert after[..cnt] == after[..mid][..cnt] && before[..cnt] == before[..mid][..cnt];
    assert before[c..] == before[mid..][c - mid..] && first[c..] == first[mid..][c - mid..];
    assert after[cnt..mid] == after[..mid][cnt..] && before[cnt..mid] == before[..mid][cnt..];
  }
}
