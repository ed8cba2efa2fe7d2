/**
 * The TLV items that make up signature-read response bodies: a type byte, a
 * length byte and that many value bytes. The firmware's `tlv` module is not
 * part of this model; this is the layout its callers rely on (five items of
 * 18 + 4 + 18 + 4 + 9 bytes fill a 53-byte body exactly).
 */
module TlvCodec {
  import opened Wrappers
  import opened Bytes

  /** `Tlv::new(typ, value)`. */
  datatype Tlv = Tlv(typ: byte, value: seq<byte>)

  /** The single length byte can hold the length of the value. */
  predicate Encodable(t: Tlv)
  {
    |t.value| <= 255
  }

  predicate AllEncodable(ts: seq<Tlv>)
  {
    forall i :: 0 <= i < |ts| ==> Encodable(ts[i])
  }

  /**
   * `Tlv::new(typ, v)` for a `u16` value: the value takes the two bytes of its
   * width. Their order is not fixed by the firmware sources; little-endian is
   * assumed, as for every other integer on the wire.
   */
  function FromU16(typ: byte, v: uint16): (t: Tlv)
    ensures t.typ == typ && |t.value| == 2 && FromLe(t.value[0], t.value[1]) == v
  {
    Tlv(typ, ToLe(v))
  }

  /** The bytes `Tlv::write_into` produces. */
  function Encode(t: Tlv): (bytes: seq<byte>)
    requires Encodable(t)
  {
    [t.typ, |t.value|] + t.value
  }

  /** Items written back to back. */
  function EncodeAll(ts: seq<Tlv>): (bytes: seq<byte>)
    requires AllEncodable(ts)
  {
    if ts == [] then [] else Encode(ts[0]) + EncodeAll(ts[1..])
  }

  /** Five items written back to back are their encodings one after another. */
  lemma EncodeFive(t0: Tlv, t1: Tlv, t2: Tlv, t3: Tlv, t4: Tlv)
    requires Encodable(t0) && Encodable(t1) && Encodable(t2) && Encodable(t3) && Encodable(t4)
    ensures EncodeAll([t0, t1, t2, t3, t4]) == Encode(t0) + Encode(t1) + Encode(t2) + Encode(t3) + Encode(t4)
  {
    assert [t0, t1, t2, t3, t4][1..] == [t1, t2, t3, t4];
    assert [t1, t2, t3, t4][1..] == [t2, t3, t4];
    assert [t2, t3, t4][1..] == [t3, t4];
    assert [t3, t4][1..] == [t4];
    assert [t4][1..] == [];
    // one item is unfolded at each step
    calc {
      EncodeAll([t0, t1, t2, t3, t4]);
      Encode(t0) + EncodeAll([t1, t2, t3, t4]);
      Encode(t0) + (Encode(t1) + EncodeAll([t2, t3, t4]));
      Encode(t0) + (Encode(t1) + (Encode(t2) + EncodeAll([t3, t4])));
      Encode(t0) + (Encode(t1) + (Encode(t2) + (Encode(t3) + EncodeAll([t4]))));
      Encode(t0) + Encode(t1) + Encode(t2) + Encode(t3) + Encode(t4);
    }
  }

  /**
   * Five items whose values are 16, 2, 16, 2 and 7 bytes long fill 53 bytes,
   * each item's type, length and value at a fixed position.
   */
  lemma FiveItemsLayout(t0: Tlv, t1: Tlv, t2: Tlv, t3: Tlv, t4: Tlv)
    requires |t0.value| == 16 && |t1.value| == 2 && |t2.value| == 16 && |t3.value| == 2 && |t4.value| == 7
    ensures var b := EncodeAll([t0, t1, t2, t3, t4]);
            |b| == 53 &&
            b[0] == t0.typ && b[1] == 16 && b[2..18] == t0.value &&
            b[18] == t1.typ && b[19] == 2 && b[20..22] == t1.value &&
            b[22] == t2.typ && b[23] == 16 && b[24..40] == t2.value &&
            b[40] == t3.typ && b[41] == 2 && b[42..44] == t3.value &&
            b[44] == t4.typ && b[45] == 7 && b[46..53] == t4.value
  {
    EncodeFive(t0, t1, t2, t3, t4);
    var e0, e1, e2, e3, e4 := Encode(t0), Encode(t1), Encode(t2), Encode(t3), Encode(t4);
    var b := EncodeAll([t0, t1, t2, t3, t4]);
    assert b == e0 + e1 + e2 + e3 + e4;
    assert b[..18] == e0;
    assert b[18..22] == e1;
    assert b[22..40] == e2;
    assert b[40..44] == e3;
    assert b[44..] == e4;
    assert b[2..18] == e0[2..];
    assert b[20..22] == e1[2..];
    assert b[24..40] == e2[2..];
    assert b[42..44] == e3[2..];
    assert b[46..53] == e4[2..];
  }

  /** Where an item sits among other bytes: its type, its length, then its value. */
  lemma ItemAt(prefix: seq<byte>, t: Tlv, suffix: seq<byte>)
    requires Encodable(t)
    ensures var s := prefix + Encode(t) + suffix;
            s[|prefix|] == t.typ && s[|prefix| + 1] == |t.value| &&
            s[|prefix| + 2..|prefix| + 2 + |t.value|] == t.value
  {
    var s := prefix + Encode(t) + suffix;
    assert s[|prefix| + 2..|prefix| + 2 + |t.value|] == Encode(t)[2..];
  }

  /** Reads one item from the front of the bytes, if they hold a whole one. */
  function Decode(bytes: seq<byte>): (r: Option<(Tlv, seq<byte>)>)
    ensures r.Some? ==> |r.value.1| < |bytes| && Encodable(r.value.0) &&
                        bytes == Encode(r.value.0) + r.value.1
  {
    if |bytes| < 2 || |bytes| < 2 + bytes[1] as int then None
    else
      var len := bytes[1];
      assert bytes == [bytes[0], len] + bytes[2..2 + len] + bytes[2 + len..];
      Some((Tlv(bytes[0], bytes[2..2 + len]), bytes[2 + len..]))
  }

  /** Splits bytes into the items written back to back, if they are exactly a sequence of items. */
  function DecodeAll(bytes: seq<byte>): (r: Option<seq<Tlv>>)
    ensures r.Some? ==> AllEncodable(r.value) && EncodeAll(r.value) == bytes
    decreases |bytes|
  {
    if bytes == [] then Some([])
    else
      match Decode(bytes)
      case None => None
      case Some((t, rest)) =>
        match DecodeAll(rest)
        case None => None
        case Some(ts) =>
          assert ([t] + ts)[1..] == ts;
          Some([t] + ts)
  }

  /** Decoding an encoded item gives it back, with whatever follows it. */
  lemma DecodeEncode(t: Tlv, rest: seq<byte>)
    requires Encodable(t)
    ensures Decode(Encode(t) + rest) == Some((t, rest))
  {
    var bytes := Encode(t) + rest;
    assert bytes[2..2 + |t.value|] == t.value;
    assert bytes[2 + |t.value|..] == rest;
  }

  /** Decoding items written back to back gives exactly those items. */
  lemma {:induction false} DecodeAllEncodeAll(ts: seq<Tlv>)
    requires AllEncodable(ts)
    ensures DecodeAll(EncodeAll(ts)) == Some(ts)
  {
    if ts != [] {
      assert AllEncodable(ts[1..]) by {
        forall i | 0 <= i < |ts[1..]| ensures Encodable(ts[1..][i]) {
          assert ts[1..][i] == ts[i + 1];
        }
      }
      DecodeEncode(ts[0], EncodeAll(ts[1..]));
      DecodeAllEncodeAll(ts[1..]);
      assert [ts[0]] + ts[1..] == ts;
    }
  }

  /**
   * `Tlv::write_into(&mut buffer[offset..])`: writes the item at `offset` and
   * returns the number of bytes written; nothing else in the buffer changes.
   */
  method WriteInto(t: Tlv, buffer: array<byte>, offset: nat) returns (n: nat)
    requires Encodable(t)
    requires offset + 2 + |t.value| <= buffer.Length
    modifies buffer
    ensures n == |Encode(t)|
    ensures buffer[offset..offset + n] == Encode(t)
    ensures buffer[..offset] == old(buffer[..offset])
    ensures buffer[offset + n..] == old(buffer[offset + n..])
  {
    buffer[offset] := t.typ;
    buffer[offset + 1] := |t.value|;
    var i := 0;
    while i < |t.value|
      invariant 0 <= i <= |t.value|
      invariant buffer[offset..offset + 2] == [t.typ, |t.value|]
      invariant buffer[offset + 2..offset + 2 + i] == t.value[..i]
      invariant buffer[..offset] == old(buffer[..offset])
      invariant buffer[offset + 2 + |t.value|..] == old(buffer[offset + 2 + |t.value|..])
    {
      buffer[offset + 2 + i] := t.value[i];
      i := i + 1;
    }
    n := 2 + |t.value|;
    assert t.value[..i] == t.value;
    ghost var after := buffer[..];
    assert after[offset..offset + n] == after[offset..offset + 2] + after[offset + 2..offset + n];
  }

  /**
   * `offset += t.write_into(&mut buffer[offset..])`: the bytes written so
   * far, `buffer[..offset]`, grow by the item's encoding.
   */
  method Append(t: Tlv, buffer: array<byte>, offset: nat, ghost written: seq<byte>) returns (next: nat)
    requires Encodable(t)
    requires offset + 2 + |t.value| <= buffer.Length
    requires buffer[..offset] == written
    modifies buffer
    ensures next == offset + |Encode(t)|
    ensures buffer[..next] == written + Encode(t)
  {
    var n := WriteInto(t, buffer, offset);
    assert buffer[..offset + n] == buffer[..offset] + buffer[offset..offset + n];
    next := offset + n;
  }
}
