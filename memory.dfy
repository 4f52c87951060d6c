/** The EEPROM as a byte sequence, the block read and write of its driver, and
    the differential ("write only if different") property write. */
module Memory {
  import opened Codec

  /** The EEPROM contents together with the number of property writes that
      actually reached it since boot (`_propertyWritesSinceBoot`). */
  datatype Eeprom = Eeprom(bytes: seq<byte>, writes: nat)

  /** The w-byte field stored at address a, least significant byte first. */
  function Read(m: seq<byte>, a: nat, w: nat): (v: nat)
    requires a + w <= |m|
    ensures v < Pow256(w)
    decreases w
  {
    if w == 0 then 0 else m[a] + 256 * Read(m, a + 1, w - 1)
  }

  /** Reading a field decodes the bytes it occupies. */
  lemma {:induction false} ReadDecode(m: seq<byte>, a: nat, w: nat)
    requires a + w <= |m|
    ensures Read(m, a, w) == Decode(m[a..a + w])
    decreases w
  {
    if w > 0 {
      ReadDecode(m, a + 1, w - 1);
      assert m[a..a + w][1..] == m[a + 1..a + w];
    }
  }

  /** m with the block bs written at address a. */
  function Write(m: seq<byte>, a: nat, bs: seq<byte>): (r: seq<byte>)
    requires a + |bs| <= |m|
    ensures |r| == |m|
  {
    m[..a] + bs + m[a + |bs|..]
  }

  /** The differential write of a w-byte property: the field is written, and
      the write counted, only when the stored value differs from v. */
  function TryWrite(e: Eeprom, a: nat, v: nat, w: nat): (r: Eeprom)
    requires a + w <= |e.bytes|
    requires v < Pow256(w)
    ensures |r.bytes| == |e.bytes|
  {
    if Read(e.bytes, a, w) != v then Eeprom(Write(e.bytes, a, Encode(v, w)), e.writes + 1) else e
  }

  /** A field written with bs reads back as bs. */
  lemma ReadWritten(m: seq<byte>, a: nat, bs: seq<byte>)
    requires a + |bs| <= |m|
    ensures Read(Write(m, a, bs), a, |bs|) == Decode(bs)
  {
    ReadDecode(Write(m, a, bs), a, |bs|);
    assert Write(m, a, bs)[a..a + |bs|] == bs;
  }

  /** A write leaves every field it does not overlap unchanged. */
  lemma ReadOther(m: seq<byte>, a: nat, bs: seq<byte>, b: nat, w: nat)
    requires a + |bs| <= |m| && b + w <= |m|
    requires b + w <= a || a + |bs| <= b
    ensures Read(Write(m, a, bs), b, w) == Read(m, b, w)
  {
    ReadDecode(Write(m, a, bs), b, w);
    ReadDecode(m, b, w);
    assert Write(m, a, bs)[b..b + w] == m[b..b + w];
  }

  /** Whether or not the differential write touches the EEPROM, afterwards the
      field holds exactly the image of v, it reads back as v, and the counter
      went up by one exactly when the old value differed. */
  lemma TryWriteStores(e: Eeprom, a: nat, v: nat, w: nat)
    requires a + w <= |e.bytes|
    requires v < Pow256(w)
    ensures TryWrite(e, a, v, w).bytes == Write(e.bytes, a, Encode(v, w))
    ensures Read(TryWrite(e, a, v, w).bytes, a, w) == v
    ensures TryWrite(e, a, v, w).writes == e.writes + (if Read(e.bytes, a, w) == v then 0 else 1)
  {
    DecodeEncode(v, w);
    ReadWritten(e.bytes, a, Encode(v, w));
    ReadDecode(e.bytes, a, w);
    if Read(e.bytes, a, w) == v {
      var stored := e.bytes[a..a + w];
      EncodeDecode(stored);
      assert Encode(v, w) == stored;
      WriteSame(e.bytes, a, w);
    }
  }

  /** Writing back the bytes already stored changes nothing. */
  lemma WriteSame(m: seq<byte>, a: nat, w: nat)
    requires a + w <= |m|
    ensures Write(m, a, m[a..a + w]) == m
  {
  }

  /** Two writes of adjacent blocks are one write of their concatenation. */
  lemma WriteAdjacent(m: seq<byte>, a: nat, x: seq<byte>, y: seq<byte>)
    requires a + |x| + |y| <= |m|
    ensures Write(Write(m, a, x), a + |x|, y) == Write(m, a, x + y)
  {
    var m1 := Write(m, a, x);
    assert m1[..a + |x|] == m[..a] + x;
    assert m1[a + |x| + |y|..] == m[a + |x| + |y|..];
  }

  /** A slice that lies inside the left operand of a concatenation. */
  lemma SliceLeft(x: seq<byte>, y: seq<byte>, i: nat, j: nat)
    requires i <= j <= |x|
    ensures (x + y)[i..j] == x[i..j]
  {
  }

  /** The right operand of a concatenation, sliced back out. */
  lemma SliceRight(x: seq<byte>, y: seq<byte>)
    ensures (x + y)[|x|..|x| + |y|] == y
  {
  }

  /** Writing a block right after a prefix p that is already in place extends
      that prefix: the basis of the fixed-order field writes. */
  lemma WriteAtFrontier(p: seq<byte>, m: seq<byte>, bs: seq<byte>)
    requires |p| + |bs| <= |m|
    ensures Write(p + m[|p|..], |p|, bs) == (p + bs) + m[|p| + |bs|..]
  {
  }

  /** The field that sits right after the prefix p reads as bs decodes. */
  lemma ReadAtFrontier(p: seq<byte>, bs: seq<byte>, rest: seq<byte>)
    ensures Read(p + bs + rest, |p|, |bs|) == Decode(bs)
  {
    ReadDecode(p + bs + rest, |p|, |bs|);
    assert (p + bs + rest)[|p|..|p| + |bs|] == bs;
  }

  /** An all-zero field reads as 0. */
  lemma ReadZeros(m: seq<byte>, a: nat, w: nat)
    requires a + w <= |m|
    requires forall i | a <= i < a + w :: m[i] == 0
    ensures Read(m, a, w) == 0
  {
    ReadDecode(m, a, w);
    DecodeZeros(m[a..a + w]);
  }

  /** A field whose cells all hold 0xFF, the erased state of an EEPROM cell,
      reads as the largest w-byte value. */
  lemma {:induction false} ReadOnes(m: seq<byte>, a: nat, w: nat)
    requires a + w <= |m|
    requires forall i | a <= i < a + w :: m[i] == 0xFF
    ensures Read(m, a, w) == Pow256(w) - 1
    decreases w
  {
    if w > 0 {
      ReadOnes(m, a + 1, w - 1);
    }
  }
}
