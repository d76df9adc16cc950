/**
 * Scalar codec of the SSE-PDM interface.
 *
 * Every structure of the interface is a sequence of fixed-width scalar fields
 * (32-bit integers, enumerations stored as 32-bit integers, 32/64-bit floating
 * point values carried as opaque bit patterns). On the wire each scalar is
 * written in network (big-endian) byte order. A structure's `marshall()`
 * converts each of its fields in place from host to network order, and
 * `demarshall()` converts them back; this module models that conversion for a
 * host of either byte order and proves that, after it, the host's memory image
 * of a scalar is exactly its canonical big-endian encoding.
 */
module Wire {

  newtype uint8 = x: int | 0 <= x < 0x100
  newtype uint32 = x: int | 0 <= x < 0x1_0000_0000
  newtype uint64 = x: int | 0 <= x < 0x1_0000_0000_0000_0000
  newtype int32 = x: int | -0x8000_0000 <= x < 0x8000_0000

  /** Error kinds reported by the codecs, the activity tracker and the classification table. */
  datatype Error =
    | TruncatedInput
    | FieldOutOfRange
    | InvalidCount
    | SampleOverflow
    | UnknownMessageCode
    | UnknownActivity
    | DuplicateActivity
    | IllegalStateTransition
    | IllegalClassification
    | CapacityExceeded
    | CounterExhausted

  datatype Result<+T> = Ok(value: T) | Err(error: Error) {
    predicate IsFailure() { Err? }
    function PropagateFailure<U>(): Result<U>
      requires Err?
    {
      Err(error)
    }
    function Extract(): T
      requires Ok?
    {
      value
    }
  }

  // ---------------------------------------------------------------------
  // Unsigned integers as big-endian byte strings
  // ---------------------------------------------------------------------

  function Pow256(n: nat): (r: nat)
    ensures r >= 1
  {
    if n == 0 then 1 else 256 * Pow256(n - 1)
  }

  function Pow2(k: nat): (r: nat)
    ensures r >= 1
  {
    if k == 0 then 1 else 2 * Pow2(k - 1)
  }

  /** The n-byte big-endian (network order) encoding of x. */
  function BigEndian(x: nat, n: nat): (b: seq<uint8>)
    requires x < Pow256(n)
    ensures |b| == n
  {
    if n == 0 then [] else BigEndian(x / 256, n - 1) + [(x % 256) as uint8]
  }

  /** The unsigned value of a big-endian byte string. */
  function ValueOf(b: seq<uint8>): (x: nat)
    ensures x < Pow256(|b|)
  {
    if b == [] then 0 else ValueOf(b[..|b| - 1]) * 256 + b[|b| - 1] as nat
  }

  lemma {:induction false} ValueOfBigEndian(x: nat, n: nat)
    requires x < Pow256(n)
    ensures ValueOf(BigEndian(x, n)) == x
  {
    if n > 0 {
      var b := BigEndian(x, n);
      assert b[..|b| - 1] == BigEndian(x / 256, n - 1);
      ValueOfBigEndian(x / 256, n - 1);
    }
  }

  lemma {:induction false} BigEndianValueOf(b: seq<uint8>)
    ensures BigEndian(ValueOf(b), |b|) == b
  {
    if b != [] {
      var init := b[..|b| - 1];
      BigEndianValueOf(init);
      assert (ValueOf(init) * 256 + b[|b| - 1] as nat) / 256 == ValueOf(init);
      assert b == init + [b[|b| - 1]];
    }
  }

  function Reverse(b: seq<uint8>): (r: seq<uint8>)
    ensures |r| == |b|
  {
    if b == [] then [] else Reverse(b[1..]) + [b[0]]
  }

  lemma {:induction false} ReverseAt(b: seq<uint8>, i: nat)
    requires i < |b|
    ensures Reverse(b)[i] == b[|b| - 1 - i]
  {
    if i < |b| - 1 {
      ReverseAt(b[1..], i);
    }
  }

  lemma ReverseReverse(b: seq<uint8>)
    ensures Reverse(Reverse(b)) == b
  {
    forall i | 0 <= i < |b|
      ensures Reverse(Reverse(b))[i] == b[i]
    {
      ReverseAt(Reverse(b), i);
      ReverseAt(b, |b| - 1 - i);
    }
  }

  // ---------------------------------------------------------------------
  // Host byte order and the in-place host <-> network conversion
  // ---------------------------------------------------------------------

  /** Byte order of the machine that runs marshall()/demarshall(). */
  datatype ByteOrder = BigEndianHost | LittleEndianHost

  /** How an n-byte scalar with value x is laid out in the memory of a host. */
  function HostBytes(h: ByteOrder, x: nat, n: nat): (b: seq<uint8>)
    requires x < Pow256(n)
    ensures |b| == n
  {
    if h == BigEndianHost then BigEndian(x, n) else Reverse(BigEndian(x, n))
  }

  /**
   * The host-to-network conversion of one n-byte scalar (htonl and its
   * 64-bit analogue): the value whose host memory image is the big-endian
   * encoding of x. It is its own inverse, so it also models network-to-host.
   */
  function ToNetwork(h: ByteOrder, x: nat, n: nat): (y: nat)
    requires x < Pow256(n)
    ensures y < Pow256(n)
    ensures h == BigEndianHost ==> y == x
  {
    if h == BigEndianHost then x
    else
      ByteSwapValue(x, n);
      ByteSwap(x, n)
  }

  /** The n-byte little-endian encoding of x (least significant byte first). */
  function LittleEndian(x: nat, n: nat): (b: seq<uint8>)
    ensures |b| == n
  {
    if n == 0 then [] else [(x % 256) as uint8] + LittleEndian(x / 256, n - 1)
  }

  /** x with the order of its n low bytes reversed. */
  function ByteSwap(x: nat, n: nat): nat
  {
    if n == 0 then 0 else (x % 256) * Pow256(n - 1) + ByteSwap(x / 256, n - 1)
  }

  lemma ShiftDistributes(a: nat, p: nat, v: nat, last: nat)
    ensures (a * p + v) * 256 + last == a * (256 * p) + (v * 256 + last)
  {
  }

  lemma {:induction false} ValueOfCons(a: uint8, rest: seq<uint8>)
    ensures ValueOf([a] + rest) == a as nat * Pow256(|rest|) + ValueOf(rest)
  {
    if rest != [] {
      var c := [a] + rest;
      var init := rest[..|rest| - 1];
      assert c[..|c| - 1] == [a] + init;
      ValueOfCons(a, init);
      ShiftDistributes(a as nat, Pow256(|init|), ValueOf(init), rest[|rest| - 1] as nat);
    }
  }

  /** Byte-swapping reads the little-endian bytes as a big-endian number. */
  lemma {:induction false} ByteSwapValue(x: nat, n: nat)
    ensures ByteSwap(x, n) == ValueOf(LittleEndian(x, n))
  {
    if n > 0 {
      ByteSwapValue(x / 256, n - 1);
      ValueOfCons((x % 256) as uint8, LittleEndian(x / 256, n - 1));
    }
  }

  lemma {:induction false} ReverseSnoc(a: seq<uint8>, b: uint8)
    ensures Reverse(a + [b]) == [b] + Reverse(a)
  {
    if a != [] {
      assert (a + [b])[1..] == a[1..] + [b];
      ReverseSnoc(a[1..], b);
    }
  }

  lemma {:induction false} LittleEndianIsReverse(x: nat, n: nat)
    requires x < Pow256(n)
    ensures LittleEndian(x, n) == Reverse(BigEndian(x, n))
  {
    if n > 0 {
      LittleEndianIsReverse(x / 256, n - 1);
      ReverseSnoc(BigEndian(x / 256, n - 1), (x % 256) as uint8);
    }
  }

  /** The converted value's memory image on the host is the big-endian encoding of the original. */
  lemma ToNetworkImage(h: ByteOrder, x: nat, n: nat)
    requires x < Pow256(n)
    ensures HostBytes(h, ToNetwork(h, x, n), n) == BigEndian(x, n)
  {
    if h == LittleEndianHost {
      var r := Reverse(BigEndian(x, n));
      ByteSwapValue(x, n);
      LittleEndianIsReverse(x, n);
      assert ToNetwork(h, x, n) == ValueOf(r);
      BigEndianValueOf(r);
      ReverseReverse(BigEndian(x, n));
    }
  }

  lemma ToNetworkInvolution(h: ByteOrder, x: nat, n: nat)
    requires x < Pow256(n)
    ensures ToNetwork(h, ToNetwork(h, x, n), n) == x
  {
    if h == LittleEndianHost {
      var y := ToNetwork(h, x, n);
      var z := ToNetwork(h, y, n);
      ToNetworkImage(h, x, n);
      ToNetworkImage(h, y, n);
      // Reverse(BigEndian(y)) == BigEndian(x) and Reverse(BigEndian(z)) == BigEndian(y)
      ReverseReverse(BigEndian(z, n));
      ReverseReverse(BigEndian(y, n));
      assert BigEndian(z, n) == Reverse(BigEndian(y, n)) == BigEndian(x, n);
      ValueOfBigEndian(z, n);
      ValueOfBigEndian(x, n);
    }
  }

  // ---------------------------------------------------------------------
  // Signed 32-bit integers in two's complement
  // ---------------------------------------------------------------------

  /** The two's-complement bit pattern of a signed 32-bit value. */
  function Word(v: int32): (w: uint32)
    ensures Signed(w) == v
    ensures v >= 0 <==> w < 0x8000_0000
  {
    if v >= 0 then v as int as uint32 else (v as int + 0x1_0000_0000) as uint32
  }

  /** The signed value of a 32-bit two's-complement bit pattern. */
  function Signed(w: uint32): int32
  {
    if w < 0x8000_0000 then w as int as int32 else (w as int - 0x1_0000_0000) as int32
  }

  lemma WordSigned(w: uint32)
    ensures Word(Signed(w)) == w
  {
  }

  // ---------------------------------------------------------------------
  // Scalars and their sequences
  // ---------------------------------------------------------------------

  /** One field of a structure, as the bit pattern it occupies. */
  datatype Scalar = W8(b: uint8) | W32(w: uint32) | W64(d: uint64)

  datatype Width = One | Four | Eight

  function WidthOf(s: Scalar): Width
  {
    match s
    case W8(_) => One
    case W32(_) => Four
    case W64(_) => Eight
  }

  function ByteCount(w: Width): nat
  {
    match w
    case One => 1
    case Four => 4
    case Eight => 8
  }

  function I32(v: int32): Scalar { W32(Word(v)) }

  /** The layout (sequence of field widths) of a sequence of scalars. */
  function LayoutOf(s: seq<Scalar>): (l: seq<Width>)
    ensures |l| == |s|
    ensures forall i :: 0 <= i < |s| ==> l[i] == WidthOf(s[i])
  {
    seq(|s|, i requires 0 <= i < |s| => WidthOf(s[i]))
  }

  lemma LayoutOfAppend(a: seq<Scalar>, b: seq<Scalar>)
    ensures LayoutOf(a + b) == LayoutOf(a) + LayoutOf(b)
  {
  }

  /** Number of bytes a layout occupies on the wire. */
  function SizeOf(l: seq<Width>): nat
  {
    if l == [] then 0 else ByteCount(l[0]) + SizeOf(l[1..])
  }

  lemma {:induction false} SizeOfAppend(a: seq<Width>, b: seq<Width>)
    ensures SizeOf(a + b) == SizeOf(a) + SizeOf(b)
  {
    if a == [] {
      assert a + b == b;
    } else {
      assert (a + b)[1..] == a[1..] + b;
      SizeOfAppend(a[1..], b);
    }
  }

  /** Canonical (big-endian) bytes of one scalar. */
  function ScalarBytes(s: Scalar): (b: seq<uint8>)
    ensures |b| == ByteCount(WidthOf(s))
  {
    match s
    case W8(b) => BigEndian(b as nat, 1)
    case W32(w) => BigEndian(w as nat, 4)
    case W64(d) => BigEndian(d as nat, 8)
  }

  /** Canonical wire encoding: the scalars' big-endian bytes, in order, with no gaps. */
  function Serialize(s: seq<Scalar>): (b: seq<uint8>)
    ensures |b| == SizeOf(LayoutOf(s))
  {
    if s == [] then [] else
      assert LayoutOf(s)[1..] == LayoutOf(s[1..]);
      ScalarBytes(s[0]) + Serialize(s[1..])
  }

  lemma {:induction false} SerializeAppend(a: seq<Scalar>, b: seq<Scalar>)
    ensures Serialize(a + b) == Serialize(a) + Serialize(b)
  {
    if a == [] {
      assert a + b == b;
    } else {
      assert (a + b)[1..] == a[1..] + b;
      SerializeAppend(a[1..], b);
    }
  }

  lemma Pow256Widths()
    ensures Pow256(1) == 0x100 && Pow256(4) == 0x1_0000_0000 && Pow256(8) == 0x1_0000_0000_0000_0000
  {
  }

  function ScalarOf(w: Width, b: seq<uint8>): Scalar
    requires |b| == ByteCount(w)
  {
    Pow256Widths();
    match w
    case One => W8(ValueOf(b) as uint8)
    case Four => W32(ValueOf(b) as uint32)
    case Eight => W64(ValueOf(b) as uint64)
  }

  /**
   * Decodes scalars of the given layout from the front of b, returning them
   * with the bytes that follow. Fails with TruncatedInput when b is shorter
   * than the layout.
   */
  function Deserialize(l: seq<Width>, b: seq<uint8>): (r: Result<(seq<Scalar>, seq<uint8>)>)
    ensures r.Ok? <==> |b| >= SizeOf(l)
    ensures r.Err? ==> r.error == TruncatedInput
    ensures r.Ok? ==> LayoutOf(r.value.0) == l && r.value.1 == b[SizeOf(l)..]
  {
    if l == [] then Ok(([], b))
    else if |b| < ByteCount(l[0]) then Err(TruncatedInput)
    else
      var n := ByteCount(l[0]);
      var x := ScalarOf(l[0], b[..n]);
      match Deserialize(l[1..], b[n..])
      case Err(e) => Err(e)
      case Ok((xs, rest)) =>
        assert l == [l[0]] + l[1..];
        Ok(([x] + xs, rest))
  }

  lemma ScalarOfScalarBytes(s: Scalar)
    ensures ScalarOf(WidthOf(s), ScalarBytes(s)) == s
  {
    Pow256Widths();
    match s {
      case W8(b) => ValueOfBigEndian(b as nat, 1);
      case W32(w) => ValueOfBigEndian(w as nat, 4);
      case W64(d) => ValueOfBigEndian(d as nat, 8);
    }
  }

  /** One step of decoding: the first scalar, then the rest of the layout. */
  lemma DeserializeStep(l: seq<Width>, b: seq<uint8>, xs: seq<Scalar>, rest: seq<uint8>)
    requires l != [] && |b| >= ByteCount(l[0])
    requires Deserialize(l[1..], b[ByteCount(l[0])..]) == Ok((xs, rest))
    ensures Deserialize(l, b) == Ok(([ScalarOf(l[0], b[..ByteCount(l[0])])] + xs, rest))
  {
  }

  lemma SerializeSplit(s: seq<Scalar>, rest: seq<uint8>)
    requires s != []
    ensures |ScalarBytes(s[0])| == ByteCount(LayoutOf(s)[0])
    ensures (Serialize(s) + rest)[..ByteCount(LayoutOf(s)[0])] == ScalarBytes(s[0])
    ensures (Serialize(s) + rest)[ByteCount(LayoutOf(s)[0])..] == Serialize(s[1..]) + rest
    ensures LayoutOf(s)[1..] == LayoutOf(s[1..])
  {
    assert Serialize(s) + rest == ScalarBytes(s[0]) + (Serialize(s[1..]) + rest);
  }

  lemma {:induction false} DeserializeSerialize(s: seq<Scalar>, rest: seq<uint8>)
    ensures Deserialize(LayoutOf(s), Serialize(s) + rest) == Ok((s, rest))
  {
    if s != [] {
      var l := LayoutOf(s);
      var b := Serialize(s) + rest;
      var n := ByteCount(l[0]);
      SerializeSplit(s, rest);
      ScalarOfScalarBytes(s[0]);
      assert ScalarOf(l[0], b[..n]) == s[0];
      DeserializeSerialize(s[1..], rest);
      assert Deserialize(l[1..], b[n..]) == Ok((s[1..], rest));
      DeserializeStep(l, b, s[1..], rest);
      assert [s[0]] + s[1..] == s;
    }
  }

  /** Bytes after a decoded prefix do not influence what the prefix decodes to. */
  lemma {:induction false} DeserializeExtend(l: seq<Width>, b: seq<uint8>, extra: seq<uint8>)
    requires |b| >= SizeOf(l)
    ensures Deserialize(l, b + extra).Ok?
    ensures Deserialize(l, b + extra).value.0 == Deserialize(l, b).value.0
    ensures Deserialize(l, b + extra).value.1 == Deserialize(l, b).value.1 + extra
  {
    assert (b + extra)[SizeOf(l)..] == b[SizeOf(l)..] + extra;
    if l != [] {
      var n := ByteCount(l[0]);
      assert (b + extra)[..n] == b[..n];
      assert (b + extra)[n..] == b[n..] + extra;
      DeserializeExtend(l[1..], b[n..], extra);
    }
  }

  /** The bytes a scalar is read from are exactly the bytes it is written as. */
  lemma ScalarBytesOf(w: Width, b: seq<uint8>)
    requires |b| == ByteCount(w)
    ensures WidthOf(ScalarOf(w, b)) == w
    ensures ScalarBytes(ScalarOf(w, b)) == b
  {
    Pow256Widths();
    BigEndianValueOf(b);
  }

  /**
   * Reading a layout and writing the scalars back reproduces the input:
   * decoding loses no byte and invents none.
   */
  lemma {:induction false} SerializeDeserialize(l: seq<Width>, b: seq<uint8>)
    requires |b| >= SizeOf(l)
    ensures Deserialize(l, b).Ok?
    ensures Serialize(Deserialize(l, b).value.0) + Deserialize(l, b).value.1 == b
  {
    if l != [] {
      var n := ByteCount(l[0]);
      assert b == b[..n] + b[n..];
      var x := ScalarOf(l[0], b[..n]);
      assert ScalarBytes(x) == b[..n] by {
        ScalarBytesOf(l[0], b[..n]);
      }
      SerializeDeserialize(l[1..], b[n..]);
      var xs := Deserialize(l[1..], b[n..]).value.0;
      var rest := Deserialize(l[1..], b[n..]).value.1;
      assert Deserialize(l, b) == Ok(([x] + xs, rest));
      assert ([x] + xs)[0] == x && ([x] + xs)[1..] == xs;
      assert Serialize([x] + xs) + rest == b[..n] + (Serialize(xs) + rest);
    }
  }

  // ---------------------------------------------------------------------
  // In-place conversion of a whole structure
  // ---------------------------------------------------------------------

  /** A single byte has no byte order: its conversion is the identity on either host. */
  function ToNetwork8(h: ByteOrder, b: uint8): (r: uint8)
    ensures r == b
  {
    Pow256Widths();
    var r := ToNetwork(h, b as nat, 1) as uint8;
    ToNetworkImage(h, b as nat, 1);
    assert BigEndian(b as nat, 1) == [b];
    assert Reverse([b]) == [b];
    assert HostBytes(h, r as nat, 1) == BigEndian(r as nat, 1);
    ValueOfBigEndian(r as nat, 1);
    ValueOfBigEndian(b as nat, 1);
    r
  }

  function ToNetwork32(h: ByteOrder, w: uint32): uint32
  {
    ToNetwork(h, w as nat, 4) as uint32
  }

  function ToNetwork64(h: ByteOrder, d: uint64): uint64
  {
    ToNetwork(h, d as nat, 8) as uint64
  }

  /** The in-place conversion of a signed field: its bit pattern is converted and reinterpreted. */
  function ToNetworkI32(h: ByteOrder, v: int32): (r: int32)
    ensures Word(r) == ToNetwork32(h, Word(v))
  {
    WordSigned(ToNetwork32(h, Word(v)));
    Signed(ToNetwork32(h, Word(v)))
  }

  function ScalarToNetwork(h: ByteOrder, s: Scalar): (r: Scalar)
    ensures WidthOf(r) == WidthOf(s)
  {
    match s
    case W8(b) => W8(ToNetwork8(h, b))
    case W32(w) => W32(ToNetwork32(h, w))
    case W64(d) => W64(ToNetwork64(h, d))
  }

  /** Every scalar of a structure converted between host and network order. */
  function AllToNetwork(h: ByteOrder, s: seq<Scalar>): (r: seq<Scalar>)
    ensures |r| == |s| && LayoutOf(r) == LayoutOf(s)
    ensures forall i :: 0 <= i < |s| ==> r[i] == ScalarToNetwork(h, s[i])
  {
    seq(|s|, i requires 0 <= i < |s| => ScalarToNetwork(h, s[i]))
  }

  lemma AllToNetworkAppend(h: ByteOrder, a: seq<Scalar>, b: seq<Scalar>)
    ensures AllToNetwork(h, a + b) == AllToNetwork(h, a) + AllToNetwork(h, b)
  {
  }

  lemma ScalarToNetworkInvolution(h: ByteOrder, s: Scalar)
    ensures ScalarToNetwork(h, ScalarToNetwork(h, s)) == s
  {
    match s
    case W8(b) => ToNetworkInvolution(h, b as nat, 1);
    case W32(w) => ToNetworkInvolution(h, w as nat, 4);
    case W64(d) => ToNetworkInvolution(h, d as nat, 8);
  }

  lemma AllToNetworkInvolution(h: ByteOrder, s: seq<Scalar>)
    ensures AllToNetwork(h, AllToNetwork(h, s)) == s
  {
    forall i | 0 <= i < |s|
      ensures AllToNetwork(h, AllToNetwork(h, s))[i] == s[i]
    {
      ScalarToNetworkInvolution(h, s[i]);
    }
  }

  lemma ToNetworkI32Involution(h: ByteOrder, v: int32)
    ensures ToNetworkI32(h, ToNetworkI32(h, v)) == v
  {
    ToNetworkInvolution(h, Word(v) as nat, 4);
  }

  /** The memory image of a scalar on a host (the bytes memcpy would put on the wire). */
  function HostScalarBytes(h: ByteOrder, s: Scalar): (b: seq<uint8>)
    ensures |b| == ByteCount(WidthOf(s))
  {
    match s
    case W8(b) => HostBytes(h, b as nat, 1)
    case W32(w) => HostBytes(h, w as nat, 4)
    case W64(d) => HostBytes(h, d as nat, 8)
  }

  /** The memory image of a structure's fields on a host. */
  function HostImage(h: ByteOrder, s: seq<Scalar>): (b: seq<uint8>)
    ensures |b| == SizeOf(LayoutOf(s))
  {
    if s == [] then [] else
      assert LayoutOf(s)[1..] == LayoutOf(s[1..]);
      HostScalarBytes(h, s[0]) + HostImage(h, s[1..])
  }

  /**
   * After the in-place host-to-network conversion, the host's memory image of
   * the fields is their canonical big-endian encoding, whatever the host's
   * byte order.
   */
  lemma HostScalarAfterMarshall(h: ByteOrder, s: Scalar)
    ensures HostScalarBytes(h, ScalarToNetwork(h, s)) == ScalarBytes(s)
  {
    Pow256Widths();
    match s
    case W8(b) => ToNetworkImage(h, b as nat, 1);
    case W32(w) => ToNetworkImage(h, w as nat, 4);
    case W64(d) => ToNetworkImage(h, d as nat, 8);
  }

  lemma {:induction false} HostImageAfterMarshall(h: ByteOrder, s: seq<Scalar>)
    ensures HostImage(h, AllToNetwork(h, s)) == Serialize(s)
  {
    if s != [] {
      assert AllToNetwork(h, s)[1..] == AllToNetwork(h, s[1..]);
      HostScalarAfterMarshall(h, s[0]);
      HostImageAfterMarshall(h, s[1..]);
    }
  }

  // ---------------------------------------------------------------------
  // Reading typed fields back out of a scalar sequence
  // ---------------------------------------------------------------------

  function U8At(s: seq<Scalar>, i: nat): uint8
  {
    if i < |s| && s[i].W8? then s[i].b else 0
  }

  function U32At(s: seq<Scalar>, i: nat): uint32
  {
    if i < |s| && s[i].W32? then s[i].w else 0
  }

  function U64At(s: seq<Scalar>, i: nat): uint64
  {
    if i < |s| && s[i].W64? then s[i].d else 0
  }

  function I32At(s: seq<Scalar>, i: nat): int32
  {
    Signed(U32At(s, i))
  }

  /** A scalar is recovered by the reader of its width. */
  lemma ScalarOfWidth(s: seq<Scalar>, i: nat)
    requires i < |s|
    ensures WidthOf(s[i]) == Four ==> s[i] == W32(U32At(s, i)) && s[i] == I32(I32At(s, i))
    ensures WidthOf(s[i]) == Eight ==> s[i] == W64(U64At(s, i))
    ensures WidthOf(s[i]) == One ==> s[i] == W8(U8At(s, i))
  {
    if s[i].W32? {
      WordSigned(s[i].w);
    }
  }
}
