/** The fixed-length buffers a ROOT-coded array (`$arr`) decodes into, and the
    byte-level view of them that the base64 form writes through. */
module TypedArrays {
  import opened Json

  /** One byte of an ArrayBuffer. */
  newtype byte = x: int | 0 <= x < 256

  /** The array `new XxxArray(len)` creates for a `$arr` tag. Int64 and Uint64
      arrays use a Float64Array; any other tag gets a plain Array (`Generic`),
      whose cells default to `false` for the tag "Bool" and to 0 otherwise. */
  datatype ElemKind =
    | Int8 | Uint8 | Int16 | Uint16 | Int32 | Uint32 | Float32 | Float64
    | Generic(isBool: bool)
  {
    predicate IsInteger() {
      Int8? || Uint8? || Int16? || Uint16? || Int32? || Uint32?
    }

    predicate IsSigned() {
      Int8? || Int16? || Int32?
    }

    /** Bytes per element; a plain Array has no byte buffer. */
    function Width(): nat {
      match this
      case Int8 => 1
      case Uint8 => 1
      case Int16 => 2
      case Uint16 => 2
      case Int32 => 4
      case Uint32 => 4
      case Float32 => 4
      case Float64 => 8
      case Generic(_) => 0
    }
  }

  function KindOf(tag: Json): (k: ElemKind)
    ensures k.Generic? <==> !(tag.JStr? && tag.s in {"Int8", "Uint8", "Int16", "Uint16", "Int32", "Uint32",
                                                   "Float32", "Int64", "Uint64", "Float64"})
    ensures k.Generic? ==> (k.isBool <==> tag == JStr("Bool"))
    ensures k == Float64 <==> tag in {JStr("Int64"), JStr("Uint64"), JStr("Float64")}
  {
    match tag
    case JStr(s) =>
      if s == "Int8" then Int8
      else if s == "Uint8" then Uint8
      else if s == "Int16" then Int16
      else if s == "Uint16" then Uint16
      else if s == "Int32" then Int32
      else if s == "Uint32" then Uint32
      else if s == "Float32" then Float32
      else if s == "Int64" || s == "Uint64" || s == "Float64" then Float64
      else Generic(s == "Bool")
    case _ => Generic(false)
  }

  function Pow256(w: nat): (p: nat)
    ensures p >= 1
  {
    if w == 0 then 1 else 256 * Pow256(w - 1)
  }

  /** 2^(8*width) for the integer kinds. */
  function Modulus(k: ElemKind): nat {
    match k
    case Int8 => 256
    case Uint8 => 256
    case Int16 => 65536
    case Uint16 => 65536
    case Int32 => 4294967296
    case Uint32 => 4294967296
    case Float32 => 4294967296
    case Float64 => 18446744073709551616
    case Generic(_) => 1
  }

  /** The number an integer element assignment stores: the source value modulo
      2^(8*width), read back signed for the signed kinds. Float arrays keep
      integers as they are (rounding of large integers to Float32 is not modelled). */
  function Wrap(k: ElemKind, n: int): int {
    if !k.IsInteger() then n
    else
      var m := Modulus(k);
      var u := n % m;
      if k.IsSigned() && u >= m / 2 then u - m else u
  }

  predicate InRange(k: ElemKind, n: int) {
    !k.IsInteger() ||
    (var m := Modulus(k);
     if k.IsSigned() then -(m / 2) <= n < m / 2 else 0 <= n < m)
  }

  /** Storing a number keeps it exactly when the element type can hold it, and
      whatever is stored can be held. */
  lemma WrapKeepsRepresentable(k: ElemKind, n: int)
    ensures InRange(k, Wrap(k, n))
    ensures InRange(k, n) ==> Wrap(k, n) == n
  {
    if k.IsInteger() {
      var m := Modulus(k);
      if InRange(k, n) && k.IsSigned() && n < 0 {
        assert n % m == n + m;
      }
    }
  }

  /** Unsigned little-endian value of a run of bytes. */
  function LittleEndian(bs: seq<byte>): nat {
    if bs == [] then 0 else bs[0] as nat + 256 * LittleEndian(bs[1..])
  }

  /** The element a typed array of an integer kind reads from its bytes. */
  function ElementOf(k: ElemKind, bs: seq<byte>): int
    requires k.IsInteger() && |bs| == k.Width()
  {
    var u := LittleEndian(bs);
    var m := Modulus(k);
    if k.IsSigned() && u >= m / 2 then u - m else u
  }

  /** The elements an integer-kind typed array shows over `bytes`, one per
      `Width()` bytes. */
  function ElementsOf(k: ElemKind, bytes: seq<byte>): seq<int>
    requires k.IsInteger()
    decreases |bytes|
  {
    var w := k.Width();
    if |bytes| < w then [] else [ElementOf(k, bytes[..w])] + ElementsOf(k, bytes[w..])
  }

  /** Little-endian bytes of `m` in `w` bytes. */
  function LittleEndianBytes(m: nat, w: nat): (bs: seq<byte>)
    ensures |bs| == w
  {
    if w == 0 then [] else [(m % 256) as byte] + LittleEndianBytes(m / 256, w - 1)
  }

  lemma ModulusIsPower(k: ElemKind)
    requires k.IsInteger()
    ensures Modulus(k) == Pow256(k.Width())
  {
    assert Pow256(1) == 256;
    assert Pow256(2) == 65536;
    assert Pow256(4) == 256 * 256 * Pow256(2);
  }

  lemma QuotientBound(m: nat, p: nat)
    requires m < 256 * p
    ensures m / 256 < p
  {
  }

  lemma {:induction false} LittleEndianRoundTrip(m: nat, w: nat)
    requires m < Pow256(w)
    ensures LittleEndian(LittleEndianBytes(m, w)) == m
    decreases w
  {
    if w > 0 {
      var q, r := m / 256, m % 256;
      QuotientBound(m, Pow256(w - 1));
      LittleEndianRoundTrip(q, w - 1);
      var bs := LittleEndianBytes(m, w);
      assert bs[1..] == LittleEndianBytes(q, w - 1);
      assert bs[0] as nat == r;
      assert LittleEndian(bs) == r + 256 * q;
    }
  }

  /** The bytes an integer element occupies in memory. */
  function BytesOfElement(k: ElemKind, n: int): (bs: seq<byte>)
    requires k.IsInteger()
    ensures |bs| == k.Width()
  {
    LittleEndianBytes(n % Modulus(k), k.Width())
  }

  /** Reading an element back from the bytes stored for `n` gives the value an
      assignment of `n` stores. */
  lemma ElementOfBytes(k: ElemKind, n: int)
    requires k.IsInteger()
    ensures ElementOf(k, BytesOfElement(k, n)) == Wrap(k, n)
  {
    ModulusIsPower(k);
    LittleEndianRoundTrip(n % Modulus(k), k.Width());
  }

  /** The bytes of consecutive integer elements, as a typed array's buffer holds them. */
  function EncodeElements(k: ElemKind, xs: seq<int>): seq<byte>
    requires k.IsInteger()
  {
    if xs == [] then [] else BytesOfElement(k, xs[0]) + EncodeElements(k, xs[1..])
  }

  /** Viewing the bytes of stored elements through a typed array of the same
      kind gives back what an element assignment stores: the base64 form of a
      `$arr` decodes to the array whose memory it copies. */
  lemma {:induction false} ElementsOfEncoded(k: ElemKind, xs: seq<int>)
    requires k.IsInteger()
    ensures ElementsOf(k, EncodeElements(k, xs)) == seq(|xs|, i requires 0 <= i < |xs| => Wrap(k, xs[i]))
  {
    if xs != [] {
      var head, tail := BytesOfElement(k, xs[0]), EncodeElements(k, xs[1..]);
      assert (head + tail)[..k.Width()] == head;
      assert (head + tail)[k.Width()..] == tail;
      ElementOfBytes(k, xs[0]);
      ElementsOfEncoded(k, xs[1..]);
    }
  }

  /** `new DataView(buffer, o)` followed by `setUint8(k, data[k])` for every k below
      `min(|data|, |buffer| - o)`: the base64 payload is laid over the buffer. */
  function Overlay(buffer: seq<byte>, data: seq<byte>, o: nat): (r: seq<byte>)
    requires o <= |buffer|
    ensures |r| == |buffer|
    ensures forall i :: 0 <= i < |r| ==>
      r[i] == (if o <= i < o + |data| then data[i - o] else buffer[i])
    decreases |data|
  {
    if data == [] || o == |buffer| then buffer
    else Overlay(buffer[o := data[0]], data[1..], o + 1)
  }

  /** Exactly `min(|data|, |buffer| - o)` bytes change hands, all at offset `o`. */
  lemma OverlayCopiesPrefix(buffer: seq<byte>, data: seq<byte>, o: nat)
    requires o <= |buffer|
    ensures var n := if |data| < |buffer| - o then |data| else |buffer| - o;
            && Overlay(buffer, data, o)[o .. o + n] == data[..n]
            && Overlay(buffer, data, o)[..o] == buffer[..o]
            && Overlay(buffer, data, o)[o + n ..] == buffer[o + n ..]
  {
  }
}
