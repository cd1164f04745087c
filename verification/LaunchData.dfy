/**
 The launch_data tree and its wire format on a 64-bit host (liblaunch/liblaunch.c):
 nodes of 24 bytes, words on the wire in little-endian order, strings and opaque data
 padded to 8 bytes, descriptors passed beside the bytes.
 */
module LaunchData {

  type byte = x: int | 0 <= x < 0x100
  type u64 = x: int | 0 <= x < 0x1_0000_0000_0000_0000
  type i64 = x: int | -0x8000_0000_0000_0000 <= x < 0x8000_0000_0000_0000

  /** launch_data_t; a real is its 64 bits, a string has no terminator here. */
  datatype Data =
    | Dictionary(items: seq<Data>)
    | Array(items: seq<Data>)
    | Fd(fd: i64)
    | Integer(number: i64)
    | Real(bits: u64)
    | Bool(truth: u64)
    | String(chars: seq<byte>)
    | Opaque(bytes: seq<byte>)
    | Errno(err: u64)
    | MachPort(port: u64)

  function Tag(t: Data): u64 {
    match t
    case Dictionary(_) => 1
    case Array(_) => 2
    case Fd(_) => 3
    case Integer(_) => 4
    case Real(_) => 5
    case Bool(_) => 6
    case String(_) => 7
    case Opaque(_) => 8
    case Errno(_) => 9
    case MachPort(_) => 10
  }

  // ---------- Words ----------

  function Digits(v: nat, n: nat): (w: seq<byte>)
    ensures |w| == n
  {
    if n == 0 then [] else [v % 0x100] + Digits(v / 0x100, n - 1)
  }

  function Number(w: seq<byte>): nat {
    if w == [] then 0 else w[0] + 0x100 * Number(w[1..])
  }

  function Scale(n: nat): nat {
    if n == 0 then 1 else 0x100 * Scale(n - 1)
  }

  lemma {:induction false} DigitsNumber(v: nat, n: nat)
    requires v < Scale(n)
    ensures Number(Digits(v, n)) == v
  {
    if n > 0 {
      DigitsNumber(v / 0x100, n - 1);
      assert Digits(v, n)[1..] == Digits(v / 0x100, n - 1);
    }
  }

  lemma {:induction false} NumberFits(w: seq<byte>)
    ensures Number(w) < Scale(|w|)
  {
    if w != [] {
      NumberFits(w[1..]);
    }
  }

  lemma WordScale()
    ensures Scale(8) == 0x1_0000_0000_0000_0000
  {
    assert Scale(2) == 0x1_0000;
    assert Scale(4) == 0x1_0000_0000;
    assert Scale(6) == 0x1_0000_0000_0000;
  }

  /** host2wire: the eight bytes of a word in wire order. */
  function Wire(v: u64): (w: seq<byte>)
    ensures |w| == 8
  {
    Digits(v, 8)
  }

  /** big2wire: the word eight wire bytes stand for. */
  function Unwire(w: seq<byte>): u64
    requires |w| == 8
  {
    NumberFits(w);
    WordScale();
    Number(w)
  }

  lemma WireRoundTrip(v: u64)
    ensures Unwire(Wire(v)) == v
  {
    WordScale();
    DigitsNumber(v, 8);
  }

  /** The byte order of the machine, in which the decoded tree is left in memory. */
  datatype Order = LittleEndian | BigEndian

  function Flip(w: seq<byte>): (r: seq<byte>)
    requires |w| == 8
    ensures |r| == 8
  {
    [w[7], w[6], w[5], w[4], w[3], w[2], w[1], w[0]]
  }

  function Host(o: Order, v: u64): (w: seq<byte>)
    ensures |w| == 8
  {
    if o == LittleEndian then Wire(v) else Flip(Wire(v))
  }

  function Unhost(o: Order, w: seq<byte>): u64
    requires |w| == 8
  {
    if o == LittleEndian then Unwire(w) else Unwire(Flip(w))
  }

  lemma HostRoundTrip(o: Order, v: u64)
    ensures Unhost(o, Host(o, v)) == v
  {
    WireRoundTrip(v);
    assert Flip(Flip(Wire(v))) == Wire(v);
  }

  function Signed(v: u64): i64 {
    if v < 0x8000_0000_0000_0000 then v else v - 0x1_0000_0000_0000_0000
  }

  function Unsigned(n: i64): u64 {
    if 0 <= n then n else n + 0x1_0000_0000_0000_0000
  }

  function At(b: seq<byte>, at: nat): (w: seq<byte>)
    requires at + 8 <= |b|
    ensures |w| == 8
  {
    b[at..at + 8]
  }

  function Put(b: seq<byte>, at: nat, w: seq<byte>): (r: seq<byte>)
    requires at + |w| <= |b|
    ensures |r| == |b|
  {
    b[..at] + w + b[at + |w|..]
  }

  // ---------- The packed size and image of a tree ----------

  const NODE: nat := 24

  /** ROUND_TO_64BIT_WORD_SIZE */
  function Round(n: nat): (r: nat)
    ensures n <= r < n + 8
  {
    (n + 7) / 8 * 8
  }

  function Padded(s: seq<byte>): (r: seq<byte>)
    ensures |r| == Round(|s|)
  {
    s + seq(Round(|s|) - |s|, _ => 0)
  }

  function Size(t: Data): (n: nat)
    ensures NODE <= n
    decreases t
  {
    match t
    case Dictionary(items) => NODE + 8 * |items| + SizeAll(items)
    case Array(items) => NODE + 8 * |items| + SizeAll(items)
    case String(s) => NODE + Round(|s| + 1)
    case Opaque(s) => NODE + Round(|s|)
    case _ => NODE
  }

  function SizeAll(items: seq<Data>): nat
    decreases items
  {
    if items == [] then 0 else Size(items[0]) + SizeAll(items[1..])
  }

  /** The descriptors in a tree that are passed along, in the order packed. */
  function Fds(t: Data): seq<i64>
    decreases t
  {
    match t
    case Dictionary(items) => FdsAll(items)
    case Array(items) => FdsAll(items)
    case Fd(fd) => if fd == -1 then [] else [fd]
    case _ => []
  }

  function FdsAll(items: seq<Data>): seq<i64>
    decreases items
  {
    if items == [] then [] else Fds(items[0]) + FdsAll(items[1..])
  }

  /** The word a node without children carries beside its type. */
  function Payload(t: Data): u64
    requires t.Fd? || t.Integer? || t.Real? || t.Bool? || t.Errno?
  {
    match t
    case Fd(fd) => Unsigned(fd)
    case Integer(n) => Unsigned(n)
    case Real(bits) => bits
    case Bool(v) => v
    case Errno(e) => e
  }

  /** The counts fit their 64-bit fields, as they do for any tree in memory. */
  predicate Fits(t: Data)
    decreases t
  {
    match t
    case Dictionary(items) => 8 * |items| < 0x1_0000_0000_0000_0000 && FitsAll(items)
    case Array(items) => 8 * |items| < 0x1_0000_0000_0000_0000 && FitsAll(items)
    case String(s) => |s| + 8 < 0x1_0000_0000_0000_0000
    case Opaque(s) => |s| + 8 < 0x1_0000_0000_0000_0000
    case _ => true
  }

  predicate FitsAll(items: seq<Data>)
    decreases items
  {
    items == [] || (Fits(items[0]) && FitsAll(items[1..]))
  }

  /** The buffer after a tree is packed at a place: bytes no field is written to keep their values. */
  function Image(b: seq<byte>, at: nat, t: Data): (r: seq<byte>)
    requires at + Size(t) <= |b| && Fits(t)
    ensures |r| == |b|
    decreases t
  {
    var b := Put(b, at, Wire(Tag(t)));
    match t
    case Dictionary(items) => ImageAll(Put(b, at + 16, Wire(|items|)), at + NODE + 8 * |items|, items)
    case Array(items) => ImageAll(Put(b, at + 16, Wire(|items|)), at + NODE + 8 * |items|, items)
    case String(s) => Put(Put(b, at + 16, Wire(|s|)), at + NODE, Padded(s + [0]))
    case Opaque(s) => Put(Put(b, at + 16, Wire(|s|)), at + NODE, Padded(s))
    case MachPort(_) => b
    case _ => Put(b, at + 8, Wire(Payload(t)))
  }

  function ImageAll(b: seq<byte>, at: nat, items: seq<Data>): (r: seq<byte>)
    requires at + SizeAll(items) <= |b| && FitsAll(items)
    ensures |r| == |b|
    decreases items
  {
    if items == [] then b
    else ImageAll(Image(b, at, items[0]), at + Size(items[0]), items[1..])
  }

  // ---------- Parsing ----------

  /**
   The outcome of decoding: the tree with the places after it in the bytes and in the
   descriptors; a rejection; or `Wild`, input whose lengths exceed what the 64-bit
   arithmetic of the decoder covers, or whose padding leaves the buffer.
   */
  datatype Parsed<T> = Parsed(value: T, next: nat, k: nat) | Rejected | Wild

  /** What launch_data_unpack makes of the bytes from a place on. */
  function Parse(o: Order, b: seq<byte>, at: nat, fds: seq<i64>, k: nat): (p: Parsed<Data>)
    requires at <= |b|
    ensures p.Parsed? ==> at + NODE <= p.next <= |b| && k <= p.k && (k <= |fds| ==> p.k <= |fds|)
    decreases |b| - at, 0
  {
    if |b| - at < NODE then Rejected
    else
      var tag := Unwire(At(b, at));
      var word := At(b, at + 8);
      var count := Unwire(At(b, at + 16));
      var next := at + NODE;
      if tag == 1 || tag == 2 then
        if 8 * count >= 0x1_0000_0000_0000_0000 then Wild
        else if |b| - next < 8 * count then Rejected
        else
          match ParseAll(o, b, count, next + 8 * count, fds, k)
          case Parsed(items, n, k) => Parsed(if tag == 1 then Dictionary(items) else Array(items), n, k)
          case Rejected => Rejected
          case Wild => Wild
      else if tag == 3 then
        // A descriptor not replaced is left as it lies in memory, in wire order.
        if word != Wire(Unsigned(-1)) && k < |fds| then Parsed(Fd(fds[k]), next, k + 1)
        else Parsed(Fd(Signed(Unhost(o, word))), next, k)
      else if tag == 4 then Parsed(Integer(Signed(Unwire(word))), next, k)
      else if tag == 5 then Parsed(Real(Unwire(word)), next, k)
      else if tag == 6 then Parsed(Bool(Unwire(word)), next, k)
      else if tag == 7 then
        if count + 8 >= 0x1_0000_0000_0000_0000 then Wild
        else if |b| - next < count + 1 then Rejected
        else if |b| < next + Round(count + 1) then Wild
        else Parsed(String(b[next..next + count]), next + Round(count + 1), k)
      else if tag == 8 then
        if count + 8 >= 0x1_0000_0000_0000_0000 then Wild
        else if |b| - next < count then Rejected
        else if |b| < next + Round(count) then Wild
        else Parsed(Opaque(b[next..next + count]), next + Round(count), k)
      else if tag == 9 then Parsed(Errno(Unwire(word)), next, k)
      else if tag == 10 then Parsed(MachPort(Unhost(o, word)), next, k)
      else Rejected
  }

  function ParseAll(o: Order, b: seq<byte>, n: nat, at: nat, fds: seq<i64>, k: nat): (p: Parsed<seq<Data>>)
    requires at <= |b|
    ensures p.Parsed? ==> at <= p.next <= |b| && k <= p.k && (k <= |fds| ==> p.k <= |fds|) && |p.value| == n
    decreases |b| - at, n + 1
  {
    if n == 0 then Parsed([], at, k)
    else
      match Parse(o, b, at, fds, k)
      case Rejected => Rejected
      case Wild => Wild
      case Parsed(head, next, k) =>
        match ParseAll(o, b, n - 1, next, fds, k)
        case Rejected => Rejected
        case Wild => Wild
        case Parsed(tail, next, k) => Parsed([head] + tail, next, k)
  }

  // ---------- What comes back ----------

  predicate NoMachPorts(t: Data)
    decreases t
  {
    match t
    case Dictionary(items) => NoMachPortsAll(items)
    case Array(items) => NoMachPortsAll(items)
    case MachPort(_) => false
    case _ => true
  }

  predicate NoMachPortsAll(items: seq<Data>)
    decreases items
  {
    items == [] || (NoMachPorts(items[0]) && NoMachPortsAll(items[1..]))
  }

  /**
   The tree packed into a buffer, as far as its bytes carry it: the word of a Mach
   port is not written, so the port's name is what the buffer held there before.
   */
  function WithStale(o: Order, b: seq<byte>, at: nat, t: Data): (r: Data)
    requires at + Size(t) <= |b|
    ensures Fds(r) == Fds(t)
    decreases t
  {
    match t
    case Dictionary(items) => Dictionary(WithStaleAll(o, b, at + NODE + 8 * |items|, items))
    case Array(items) => Array(WithStaleAll(o, b, at + NODE + 8 * |items|, items))
    case MachPort(_) => MachPort(Unhost(o, At(b, at + 8)))
    case _ => t
  }

  function WithStaleAll(o: Order, b: seq<byte>, at: nat, items: seq<Data>): (r: seq<Data>)
    requires at + SizeAll(items) <= |b|
    ensures |r| == |items| && FdsAll(r) == FdsAll(items)
    decreases items
  {
    if items == [] then []
    else
      var head, tail := WithStale(o, b, at, items[0]), WithStaleAll(o, b, at + Size(items[0]), items[1..]);
      assert ([head] + tail)[1..] == tail;
      [head] + tail
  }

  /** The tree with its descriptors replaced, in order, by those received from place k on. */
  function WithFds(t: Data, fds: seq<i64>, k: nat): (r: Data)
    requires k + |Fds(t)| <= |fds|
    decreases t
  {
    match t
    case Dictionary(items) => Dictionary(WithFdsAll(items, fds, k))
    case Array(items) => Array(WithFdsAll(items, fds, k))
    case Fd(fd) => if fd == -1 then t else Fd(fds[k])
    case _ => t
  }

  function WithFdsAll(items: seq<Data>, fds: seq<i64>, k: nat): (r: seq<Data>)
    requires k + |FdsAll(items)| <= |fds|
    ensures |r| == |items|
    decreases items
  {
    if items == [] then []
    else [WithFds(items[0], fds, k)] + WithFdsAll(items[1..], fds, k + |Fds(items[0])|)
  }
}
