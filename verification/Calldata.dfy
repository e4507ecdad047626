/**
 On-chain calldata for public inputs: a version byte, a little-endian 32-bit count, and one
 32-byte big-endian word per value. Names do not travel; decoding numbers the inputs instead.
 */
module Calldata {
  import opened Outcomes
  import opened Text
  import opened Hex
  import opened FieldValues
  import opened Circuits

  const CALLDATA_VERSION: byte := 1

  datatype PublicInput = PublicInput(name: string, value: FieldValue)

  datatype DecodedCalldata = DecodedCalldata(version: byte, inputs: seq<PublicInput>)

  datatype CalldataError = Truncated(expected: nat, actual: nat)

  // ---------- One field ----------

  /** 32 bytes, big endian, from the hex padded on the left. */
  function EncodeField(v: FieldValue): (b: seq<byte>)
    ensures |b| == 32
  {
    PaddedIsHex(v);
    HexDecode(PadZeros(v, 64)).value
  }

  function DecodeField(chunk: seq<byte>): FieldValue
    requires |chunk| == 32
  {
    ChunkAccepted(chunk);
    FromHex(HexEncode(chunk)).value
  }

  lemma PaddedIsHex(s: string)
    requires AllHex(s) && |s| <= 64
    ensures |PadZeros(s, 64)| == 64 && AllHex(PadZeros(s, 64))
    ensures HexValue(PadZeros(s, 64)) == HexValue(s)
  {
    LeadingZerosValue(64 - |s|, s);
    hide HexValue, AllHex;
    assert Zeros(0) + s == s;
  }

  lemma ChunkAccepted(chunk: seq<byte>)
    requires |chunk| == 32
    ensures Accepted(HexEncode(chunk)) && FromHex(HexEncode(chunk)).Ok?
    ensures Value(FromHex(HexEncode(chunk)).value) == BytesValue(chunk)
  {
    var s := HexEncode(chunk);
    NoHexPrefix(s);
    HexIsAscii(s);
    FromHexValue(s);
    EncodeValue(chunk);
  }

  /** Both directions keep the number. */
  lemma FieldKeepsValue(v: FieldValue)
    ensures BytesValue(EncodeField(v)) == Value(v)
  {
    PaddedIsHex(v);
    DecodePairsValue(PadZeros(v, 64));
  }

  /** Field values and 32-byte words correspond one to one. */
  lemma FieldBijection(v: FieldValue, chunk: seq<byte>)
    requires |chunk| == 32
    ensures DecodeField(EncodeField(v)) == v
    ensures EncodeField(DecodeField(chunk)) == chunk
  {
    FieldKeepsValue(v);
    ChunkAccepted(EncodeField(v));
    ValueInjective(DecodeField(EncodeField(v)), v);
    ChunkAccepted(chunk);
    FieldKeepsValue(DecodeField(chunk));
    BytesSameWidthUnique(EncodeField(DecodeField(chunk)), chunk);
  }

  // ---------- The count ----------

  function Le32(n: u32): (b: seq<byte>)
    ensures |b| == 4
  {
    var n1 := n / 0x100;
    var n2 := n1 / 0x100;
    [n % 0x100, n1 % 0x100, n2 % 0x100, n2 / 0x100]
  }

  function FromLe32(b: seq<byte>): u32
    requires |b| == 4
  {
    var b0: int, b1: int, b2: int, b3: int := b[0], b[1], b[2], b[3];
    b0 + 0x100 * (b1 + 0x100 * (b2 + 0x100 * b3))
  }

  lemma LowByte(b: byte, rest: nat)
    ensures (b + 0x100 * rest) % 0x100 == b && (b + 0x100 * rest) / 0x100 == rest
  {
  }

  lemma Le32Bijection(n: u32, b: seq<byte>)
    requires |b| == 4
    ensures FromLe32(Le32(n)) == n && Le32(FromLe32(b)) == b
  {
    var b1: int, b2: int, b3: int := b[1], b[2], b[3];
    LowByte(b[0], b1 + 0x100 * (b2 + 0x100 * b3));
    LowByte(b[1], b2 + 0x100 * b3);
    LowByte(b[2], b3);
  }

  // ---------- The payload ----------

  function EncodeFields(vs: seq<FieldValue>): (b: seq<byte>)
    ensures |b| == 32 * |vs|
  {
    if vs == [] then [] else EncodeFields(vs[..|vs| - 1]) + EncodeField(vs[|vs| - 1])
  }

  function DecodeFields(payload: seq<byte>, count: nat): (vs: seq<FieldValue>)
    requires |payload| == 32 * count
    ensures |vs| == count
  {
    if count == 0 then [] else
      var n := |payload| - 32;
      DecodeFields(payload[..n], count - 1) + [DecodeField(payload[n..])]
  }

  lemma EncodeFieldsSnoc(vs: seq<FieldValue>, v: FieldValue)
    ensures EncodeFields(vs + [v]) == EncodeFields(vs) + EncodeField(v)
  {
    assert (vs + [v])[..|vs|] == vs;
  }

  lemma DecodeFieldsSnoc(payload: seq<byte>, count: nat, chunk: seq<byte>)
    requires |payload| == 32 * count && |chunk| == 32
    ensures DecodeFields(payload + chunk, count + 1) == DecodeFields(payload, count) + [DecodeField(chunk)]
  {
    var all := payload + chunk;
    assert all[..|payload|] == payload && all[|payload|..] == chunk;
  }

  lemma {:induction false} EncodeDecodedFields(payload: seq<byte>, count: nat)
    requires |payload| == 32 * count
    ensures EncodeFields(DecodeFields(payload, count)) == payload
  {
    if count > 0 {
      hide EncodeField, DecodeField, IsCanonicalHex;
      var n := |payload| - 32;
      var front, chunk := payload[..n], payload[n..];
      assert payload == front + chunk;
      EncodeDecodedFields(front, count - 1);
      DecodeFieldsSnoc(front, count - 1, chunk);
      EncodeFieldsSnoc(DecodeFields(front, count - 1), DecodeField(chunk));
      FieldBijection(DecodeField(chunk), chunk);
    }
  }

  // ---------- Calldata ----------

  /** The count is written modulo 2^32. */
  function Encode(vs: seq<FieldValue>): seq<byte> {
    [CALLDATA_VERSION] + Le32(WireCount(|vs|)) + EncodeFields(vs)
  }

  function Values(inputs: seq<PublicInput>): (vs: seq<FieldValue>)
    ensures |vs| == |inputs|
    ensures forall i :: 0 <= i < |vs| ==> vs[i] == inputs[i].value
  {
    seq(|inputs|, i requires 0 <= i < |inputs| => inputs[i].value)
  }

  function PositionalName(index: nat): string {
    "input[" + ToDecimal(index) + "]"
  }

  function Positional(vs: seq<FieldValue>): (inputs: seq<PublicInput>)
    ensures |inputs| == |vs|
    ensures forall i :: 0 <= i < |vs| ==> inputs[i] == PublicInput(PositionalName(i), vs[i])
  {
    seq(|vs|, i requires 0 <= i < |vs| => PublicInput(PositionalName(i), vs[i]))
  }

  lemma PositionalValues(vs: seq<FieldValue>)
    ensures Values(Positional(vs)) == vs
  {
  }

  lemma PositionalSnoc(vs: seq<FieldValue>, v: FieldValue)
    ensures Positional(vs + [v]) == Positional(vs) + [PublicInput(PositionalName(|vs|), v)]
  {
  }

  function Decode(bytes: seq<byte>): Result<DecodedCalldata, CalldataError> {
    if |bytes| < 5 then Err(Truncated(0, 0))
    else
      var count: nat := FromLe32(bytes[1..5]);
      var payload := bytes[5..];
      if |payload| != count * 32 then Err(Truncated(count * 32, |payload|))
      else Ok(DecodedCalldata(bytes[0], Positional(DecodeFields(payload, count))))
  }

  method EncodeCalldata(inputs: seq<PublicInput>) returns (out: seq<byte>)
    ensures out == Encode(Values(inputs))
  {
    hide WireCount, Le32, EncodeField, IsCanonicalHex;
    ghost var vs := Values(inputs);
    out := [CALLDATA_VERSION];
    out := out + Le32(WireCount(|inputs|));
    for i := 0 to |inputs|
      invariant out == [CALLDATA_VERSION] + Le32(WireCount(|vs|)) + EncodeFields(vs[..i])
    {
      var bytes := EncodeField(inputs[i].value);
      assert vs[..i + 1] == vs[..i] + [inputs[i].value];
      EncodeFieldsSnoc(vs[..i], inputs[i].value);
      out := out + bytes;
    }
    assert vs[..|inputs|] == vs;
  }

  method DecodeCalldata(bytes: seq<byte>) returns (r: Result<DecodedCalldata, CalldataError>)
    ensures r == Decode(bytes)
  {
    hide DecodedUpTo, Positional, PositionalName, DecodeFields, DecodeField, FromLe32, IsCanonicalHex;
    if |bytes| < 5 {
      return Err(Truncated(0, 0));
    }
    var count: nat := FromLe32(bytes[1..5]);
    var payload := bytes[5..];
    if |payload| != count * 32 {
      return Err(Truncated(count * 32, |payload|));
    }
    var inputs := [];
    DecodedEnds([], payload, count);
    for index := 0 to count
      invariant DecodedUpTo(inputs, payload, index)
    {
      var chunk := payload[index * 32..(index + 1) * 32];
      DecodedStep(inputs, payload, index);
      inputs := inputs + [PublicInput(PositionalName(index), DecodeField(chunk))];
    }
    DecodedEnds(inputs, payload, count);
    r := Ok(DecodedCalldata(bytes[0], inputs));
  }

  /** The first `index` words have been decoded. */
  ghost predicate DecodedUpTo(inputs: seq<PublicInput>, payload: seq<byte>, index: nat) {
    32 * index <= |payload| && inputs == Positional(DecodeFields(payload[..32 * index], index))
  }

  lemma DecodedEnds(inputs: seq<PublicInput>, payload: seq<byte>, count: nat)
    requires |payload| == 32 * count
    ensures DecodedUpTo([], payload, 0)
    ensures DecodedUpTo(inputs, payload, count) <==> inputs == Positional(DecodeFields(payload, count))
  {
    assert payload[..32 * count] == payload;
  }

  lemma DecodedStep(inputs: seq<PublicInput>, payload: seq<byte>, index: nat)
    requires 32 * (index + 1) <= |payload| && DecodedUpTo(inputs, payload, index)
    ensures DecodedUpTo(inputs + [PublicInput(PositionalName(index),
                                              DecodeField(payload[32 * index..32 * (index + 1)]))],
                        payload, index + 1)
  {
    hide Positional, PositionalName, DecodeField, IsCanonicalHex;
    var done, chunk := payload[..32 * index], payload[32 * index..32 * (index + 1)];
    assert payload[..32 * (index + 1)] == done + chunk;
    DecodeFieldsSnoc(done, index, chunk);
    PositionalSnoc(DecodeFields(done, index), DecodeField(chunk));
  }

  lemma DecodeParts(version: byte, header: seq<byte>, payload: seq<byte>)
    requires |header| == 4
    ensures var count: nat := FromLe32(header);
            Decode([version] + header + payload) ==
            if |payload| != count * 32 then Err(Truncated(count * 32, |payload|))
            else Ok(DecodedCalldata(version, Positional(DecodeFields(payload, count))))
  {
    hide Positional, DecodeFields, FromLe32;
    var bytes := [version] + header + payload;
    assert bytes[1..5] == header && bytes[5..] == payload;
  }

  /** The 32-bit count a list of this length is written with. */
  function WireCount(n: nat): (count: u32)
    ensures count == n <==> n < U32_LIMIT
  {
    n % 0x1_0000_0000
  }

  lemma DecodeOfEncode(vs: seq<FieldValue>)
    ensures var count: nat := WireCount(|vs|);
            Decode(Encode(vs)) ==
            if 32 * |vs| != count * 32 then Err(Truncated(count * 32, 32 * |vs|))
            else Ok(DecodedCalldata(CALLDATA_VERSION, Positional(DecodeFields(EncodeFields(vs), count))))
  {
    hide Decode, EncodeFields, DecodeFields, Positional, Le32, FromLe32, WireCount;
    var count := WireCount(|vs|);
    Le32Bijection(count, Le32(count));
    DecodeParts(CALLDATA_VERSION, Le32(count), EncodeFields(vs));
  }

  lemma {:induction false} FieldAt(vs: seq<FieldValue>, i: nat)
    requires i < |vs|
    ensures EncodeFields(vs)[32 * i..32 * i + 32] == EncodeField(vs[i])
  {
    hide EncodeField;
    var n := |vs| - 1;
    var front := EncodeFields(vs[..n]);
    assert EncodeFields(vs) == front + EncodeField(vs[n]);
    if i < n {
      FieldAt(vs[..n], i);
      assert EncodeFields(vs)[32 * i..32 * i + 32] == front[32 * i..32 * i + 32];
    } else {
      assert EncodeFields(vs)[32 * i..32 * i + 32] == EncodeField(vs[n]);
    }
  }

  lemma {:induction false} DecodedFieldAt(payload: seq<byte>, count: nat, i: nat)
    requires |payload| == 32 * count && i < count
    ensures DecodeFields(payload, count)[i] == DecodeField(payload[32 * i..32 * i + 32])
  {
    hide DecodeField;
    var n := |payload| - 32;
    if i < count - 1 {
      DecodedFieldAt(payload[..n], count - 1, i);
      assert payload[..n][32 * i..32 * i + 32] == payload[32 * i..32 * i + 32];
    } else {
      assert payload[n..] == payload[32 * i..32 * i + 32];
    }
  }

  /**
   Decoding what was encoded gives back the values in order exactly when the count fits 32
   bits; any longer list is rejected, because its truncated count no longer fits its length.
   */
  lemma DecodeEncode(vs: seq<FieldValue>)
    ensures Decode(Encode(vs)).Ok? <==> |vs| < U32_LIMIT
    ensures |vs| < U32_LIMIT ==>
              Decode(Encode(vs)) == Ok(DecodedCalldata(CALLDATA_VERSION, Positional(vs)))
  {
    hide Decode, Encode, EncodeFields, DecodeFields, Positional, WireCount, EncodeField, DecodeField;
    DecodeOfEncode(vs);
    var fields := EncodeFields(vs);
    forall i | 0 <= i < |vs| ensures DecodeFields(fields, |vs|)[i] == vs[i] {
      FieldAt(vs, i);
      DecodedFieldAt(fields, |vs|, i);
      FieldBijection(vs[i], EncodeField(vs[i]));
    }
    assert DecodeFields(fields, |vs|) == vs;
  }

  /** Decoding accepts exactly the byte strings whose length matches their count. */
  lemma DecodeAccepts(bytes: seq<byte>)
    ensures Decode(bytes).Ok? <==> |bytes| >= 5 && |bytes| == 5 + 32 * FromLe32(bytes[1..5])
  {
  }

  /**
   Whatever decoding accepts, which is every string of the right length, is encoded again byte
   for byte, except that the version byte, which decoding does not check, comes back as the
   current version.
   */
  lemma EncodeDecode(bytes: seq<byte>)
    requires |bytes| >= 5 && |bytes| == 5 + 32 * FromLe32(bytes[1..5])
    ensures Decode(bytes).Ok?
    ensures var d := Decode(bytes).value;
            && Encode(Values(d.inputs)) == [CALLDATA_VERSION] + bytes[1..]
            && (Encode(Values(d.inputs)) == bytes <==> d.version == CALLDATA_VERSION)
  {
    DecodeAccepts(bytes);
    hide Decode, EncodeFields, DecodeFields, Positional, Le32, FromLe32;
    var header, payload := bytes[1..5], bytes[5..];
    var count: nat := FromLe32(header);
    assert bytes == [bytes[0]] + header + payload && bytes[1..] == header + payload;
    DecodeParts(bytes[0], header, payload);
    PositionalValues(DecodeFields(payload, count));
    EncodeDecodedFields(payload, count);
    Le32Bijection(count, header);
  }

  /**
   The encoder takes inputs in any order and under any names: two lists below the count limit
   are encoded alike exactly when they hold the same values in the same order.
   */
  lemma EncodingSeesValuesOnly(a: seq<PublicInput>, b: seq<PublicInput>)
    requires |a| < U32_LIMIT && |b| < U32_LIMIT
    ensures Encode(Values(a)) == Encode(Values(b)) <==> Values(a) == Values(b)
  {
    hide Encode, Decode, Positional;
    if Encode(Values(a)) == Encode(Values(b)) {
      DecodeEncode(Values(a));
      DecodeEncode(Values(b));
      PositionalValues(Values(a));
      PositionalValues(Values(b));
    }
  }

  // ---------- The layout, byte by byte ----------

  /**
   Encoded calldata is the byte 1, the count modulo 2^32 with its least significant byte first,
   and then each value as 32 bytes, most significant first.
   */
  lemma EncodedLayout(vs: seq<FieldValue>, i: nat)
    requires i < |vs|
    ensures var bytes := Encode(vs);
            && |bytes| == 5 + 32 * |vs| && bytes[0] == 1
            && (bytes[1] as int) + (bytes[2] as int) * 0x100 + (bytes[3] as int) * 0x1_0000
               + (bytes[4] as int) * 0x100_0000 == |vs| % 0x1_0000_0000
            && BytesValue(bytes[5 + 32 * i..37 + 32 * i]) == Value(vs[i])
  {
    hide EncodeFields, EncodeField, Le32;
    var header, fields := Le32(WireCount(|vs|)), EncodeFields(vs);
    var bytes := Encode(vs);
    assert bytes == [CALLDATA_VERSION] + header + fields;
    CountBytes(WireCount(|vs|));
    FieldAt(vs, i);
    FieldKeepsValue(vs[i]);
    assert bytes[1..5] == header && bytes[1..5][0] == bytes[1] && bytes[1..5][1] == bytes[2];
    assert bytes[1..5][2] == bytes[3] && bytes[1..5][3] == bytes[4];
    assert bytes[5 + 32 * i..37 + 32 * i] == fields[32 * i..32 * i + 32];
  }

  lemma CountBytes(n: u32)
    ensures var b := Le32(n);
            (b[0] as int) + (b[1] as int) * 0x100 + (b[2] as int) * 0x1_0000 + (b[3] as int) * 0x100_0000 == n
  {
    Le32Bijection(n, Le32(n));
  }

  /** What decoding returns: the first byte as version, and for each 32 bytes their number under `input[i]`. */
  lemma DecodedContent(bytes: seq<byte>, i: nat)
    ensures |bytes| < 5 ==> Decode(bytes) == Err(Truncated(0, 0))
    ensures |bytes| >= 5 && |bytes| - 5 != 32 * FromLe32(bytes[1..5]) ==>
              Decode(bytes) == Err(Truncated(32 * FromLe32(bytes[1..5]), |bytes| - 5))
    ensures Decode(bytes).Ok? ==>
              var d := Decode(bytes).value;
              && d.version == bytes[0] && 32 * |d.inputs| == |bytes| - 5
              && (i < |d.inputs| ==>
                    && d.inputs[i].name == "input[" + ToDecimal(i) + "]"
                    && Value(d.inputs[i].value) == BytesValue(bytes[5 + 32 * i..37 + 32 * i]))
  {
    hide DecodeField, FromLe32, ToDecimal;
    if Decode(bytes).Ok? {
      var d, payload := Decode(bytes).value, bytes[5..];
      if i < |d.inputs| {
        DecodedFieldAt(payload, |d.inputs|, i);
        assert payload[32 * i..32 * i + 32] == bytes[5 + 32 * i..37 + 32 * i];
        DecodedFieldValue(bytes[5 + 32 * i..37 + 32 * i]);
      }
    }
  }

  lemma DecodedFieldValue(chunk: seq<byte>)
    requires |chunk| == 32
    ensures Value(DecodeField(chunk)) == BytesValue(chunk)
  {
    ChunkAccepted(chunk);
  }
}
