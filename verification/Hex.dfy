/**
 Bytes, UTF-8, and base16 (section 8 of RFC 4648): digits, whole strings, and the numbers
 that hex strings and byte strings denote, both read most significant first.
 */
module Hex {
  import opened Outcomes
  import opened Numerals
  import opened Text

  type byte = x: int | 0 <= x < 256

  // ---------- UTF-8 ----------

  function EncodeChar(c: char): (bytes: seq<byte>)
    ensures |bytes| == CharBytes(c)
  {
    var u := c as int;
    if u < 0x80 then [u]
    else if u < 0x800 then [0xC0 + u / 64, 0x80 + u % 64]
    else if u < 0x10000 then [0xE0 + u / 4096, 0x80 + u / 64 % 64, 0x80 + u % 64]
    else [0xF0 + u / 262144, 0x80 + u / 4096 % 64, 0x80 + u / 64 % 64, 0x80 + u % 64]
  }

  function Utf8(s: string): seq<byte> {
    if s == "" then [] else EncodeChar(s[0]) + Utf8(s[1..])
  }

  lemma {:induction false} Utf8Append(a: string, b: string)
    ensures Utf8(a + b) == Utf8(a) + Utf8(b)
  {
    if a == "" {
      assert a + b == b;
    } else {
      assert (a + b)[1..] == a[1..] + b;
      Utf8Append(a[1..], b);
    }
  }

  lemma {:induction false} Utf8Ascii(s: string)
    requires forall i :: 0 <= i < |s| ==> IsAscii(s[i])
    ensures |Utf8(s)| == |s|
    ensures forall i :: 0 <= i < |s| ==> Utf8(s)[i] == s[i] as int
  {
    if s != "" {
      Utf8Ascii(s[1..]);
    }
  }

  lemma Utf8AsciiInjective(a: string, b: string)
    requires forall i :: 0 <= i < |a| ==> IsAscii(a[i])
    requires forall i :: 0 <= i < |b| ==> IsAscii(b[i])
    requires Utf8(a) == Utf8(b)
    ensures a == b
  {
    Utf8Ascii(a);
    Utf8Ascii(b);
    forall i | 0 <= i < |a| ensures a[i] == b[i] {
      assert Utf8(a)[i] == Utf8(b)[i];
    }
  }

  // ---------- Hex digits ----------

  predicate IsLowerHex(c: char) {
    IsDigit(c) || 'a' <= c <= 'f'
  }

  predicate IsHexDigit(c: char) {
    IsLowerHex(c) || 'A' <= c <= 'F'
  }

  predicate AllHex(s: string) {
    forall i :: 0 <= i < |s| ==> IsHexDigit(s[i])
  }

  predicate AllLowerHex(s: string) {
    forall i :: 0 <= i < |s| ==> IsLowerHex(s[i])
  }

  function DigitValue(c: char): (d: nat)
    requires IsHexDigit(c)
    ensures d < 16
  {
    if IsDigit(c) then c as int - '0' as int
    else if 'a' <= c then c as int - 'a' as int + 10
    else c as int - 'A' as int + 10
  }

  function HexChar(d: nat): (c: char)
    requires d < 16
    ensures IsLowerHex(c) && DigitValue(c) == d
  {
    if d < 10 then (d + '0' as int) as char else (d - 10 + 'a' as int) as char
  }

  function LowerChar(c: char): char {
    if IsUpper(c) then (c as int - 'A' as int + 'a' as int) as char else c
  }

  /** `str::to_ascii_lowercase`. */
  function ToLower(s: string): (t: string)
    ensures |t| == |s|
    ensures forall i :: 0 <= i < |s| ==> t[i] == LowerChar(s[i])
  {
    seq(|s|, i requires 0 <= i < |s| => LowerChar(s[i]))
  }

  function Digits(s: string): (ds: seq<nat>)
    requires AllHex(s)
    ensures |ds| == |s| && AreDigits(ds, 16)
    ensures forall i :: 0 <= i < |s| ==> ds[i] == DigitValue(s[i])
  {
    seq(|s|, i requires 0 <= i < |s| => DigitValue(s[i]))
  }

  function OfDigits(ds: seq<nat>): (s: string)
    requires AreDigits(ds, 16)
    ensures |s| == |ds| && AllLowerHex(s)
    ensures Digits(s) == ds
  {
    var s := seq(|ds|, i requires 0 <= i < |ds| => HexChar(ds[i]));
    assert forall i :: 0 <= i < |s| ==> DigitValue(s[i]) == ds[i];
    assert Digits(s) == ds;
    s
  }

  /** The number a hex string denotes. */
  function HexValue(s: string): nat
    requires AllHex(s)
  {
    Eval(Digits(s), 16)
  }

  /** The number a byte string denotes, most significant byte first. */
  function BytesValue(b: seq<byte>): nat {
    Eval(seq(|b|, i requires 0 <= i < |b| => b[i]), 256)
  }

  /** A lowercase string is its digits. */
  lemma LowerDigitsInjective(a: string, b: string)
    requires AllLowerHex(a) && AllLowerHex(b) && Digits(a) == Digits(b)
    ensures a == b
  {
    forall i | 0 <= i < |a| ensures a[i] == b[i] {
      assert Digits(a)[i] == Digits(b)[i];
    }
  }

  lemma LowerKeepsDigits(s: string)
    requires AllHex(s)
    ensures AllLowerHex(ToLower(s)) && Digits(ToLower(s)) == Digits(s)
    ensures AllLowerHex(s) ==> ToLower(s) == s
  {
  }

  lemma {:induction false} TrimZerosDigits(s: string)
    requires AllHex(s)
    ensures |TrimZeros(s)| <= |s| && AllHex(TrimZeros(s))
    ensures AllLowerHex(s) ==> AllLowerHex(TrimZeros(s))
    ensures Digits(TrimZeros(s)) == DropZeros(Digits(s))
    ensures TrimZeros(s) != "" ==> TrimZeros(s)[0] != '0'
  {
    if s != "" && s[0] == '0' {
      TrimZerosDigits(s[1..]);
      assert Digits(s)[1..] == Digits(s[1..]);
    }
  }

  lemma ZeroDigit()
    ensures HexValue("") == 0 && HexValue("0") == 0
  {
    assert Digits("0") == [0];
    EvalSingle(0, 16);
  }

  /** Case and leading zeros do not matter to the number. */
  lemma LowerTrimmedValue(s: string)
    requires AllHex(s)
    ensures AllHex(TrimZeros(ToLower(s))) && HexValue(TrimZeros(ToLower(s))) == HexValue(s)
  {
    hide Eval, DropZeros, TrimZeros, ToLower;
    LowerKeepsDigits(s);
    TrimZerosDigits(ToLower(s));
    DropZerosValue(Digits(ToLower(s)), 16);
  }

  lemma ZerosDigits(n: nat, s: string)
    requires AllHex(s)
    ensures AllHex(Zeros(n) + s) && Digits(Zeros(n) + s) == ZeroDigits(n) + Digits(s)
  {
    assert forall i :: 0 <= i < n ==> DigitValue((Zeros(n) + s)[i]) == 0;
  }

  lemma LeadingZerosValue(n: nat, s: string)
    requires AllHex(s)
    ensures AllHex(Zeros(n) + s) && HexValue(Zeros(n) + s) == HexValue(s)
  {
    ZerosDigits(n, s);
    ZeroDigitsValue(n, Digits(s), 16);
  }

  lemma HexBound(s: string)
    requires AllHex(s)
    ensures HexValue(s) < Pow(16, |s|)
  {
    EvalBound(Digits(s), 16);
  }

  lemma DigitsAppend(a: string, b: string)
    requires AllHex(a) && AllHex(b)
    ensures AllHex(a + b) && Digits(a + b) == Digits(a) + Digits(b)
  {
  }

  lemma HexAppend(a: string, b: string)
    requires AllHex(a) && AllHex(b)
    ensures AllHex(a + b) && HexValue(a + b) == HexValue(a) * Pow(16, |b|) + HexValue(b)
  {
    DigitsAppend(a, b);
    EvalAppend(Digits(a), Digits(b), 16);
  }

  lemma HexSameWidthUnique(a: string, b: string)
    requires AllLowerHex(a) && AllLowerHex(b) && |a| == |b| && HexValue(a) == HexValue(b)
    ensures a == b
  {
    SameWidthUnique(Digits(a), Digits(b), 16);
    LowerDigitsInjective(a, b);
  }

  lemma BytesSameWidthUnique(a: seq<byte>, b: seq<byte>)
    requires |a| == |b| && BytesValue(a) == BytesValue(b)
    ensures a == b
  {
    var da := seq(|a|, i requires 0 <= i < |a| => a[i] as nat);
    var db := seq(|b|, i requires 0 <= i < |b| => b[i] as nat);
    SameWidthUnique(da, db, 256);
    forall i | 0 <= i < |a| ensures a[i] == b[i] {
      assert da[i] == db[i];
    }
  }

  // ---------- Whole-string codecs ----------

  /** `hex::encode`: two lowercase characters a byte. */
  function HexEncode(b: seq<byte>): (s: string)
    ensures |s| == 2 * |b|
    ensures forall i :: 0 <= i < |b| ==> s[2 * i] == HexChar(b[i] / 16) && s[2 * i + 1] == HexChar(b[i] % 16)
    ensures AllLowerHex(s)
  {
    seq(2 * |b|, i requires 0 <= i < 2 * |b| =>
      if i % 2 == 0 then HexChar(b[i / 2] / 16) else HexChar(b[i / 2] % 16))
  }

  function PairByte(c: char, d: char): byte
    requires IsHexDigit(c) && IsHexDigit(d)
  {
    DigitValue(c) * 16 + DigitValue(d)
  }

  function DecodePairs(s: string): (b: seq<byte>)
    requires |s| % 2 == 0 && AllHex(s)
    ensures |b| == |s| / 2
    ensures forall i :: 0 <= i < |b| ==> b[i] == PairByte(s[2 * i], s[2 * i + 1])
  {
    seq(|s| / 2, i requires 0 <= i < |s| / 2 => PairByte(s[2 * i], s[2 * i + 1]))
  }

  /** `hex::decode`: an error on odd length or a character that is not a hex digit. */
  function HexDecode(s: string): Option<seq<byte>> {
    if |s| % 2 == 0 && AllHex(s) then Some(DecodePairs(s)) else None
  }

  lemma DecodeEncode(b: seq<byte>)
    ensures HexDecode(HexEncode(b)) == Some(b)
  {
    var s := HexEncode(b);
    forall i | 0 <= i < |b| ensures DecodePairs(s)[i] == b[i] {
      assert s[2 * i] == HexChar(b[i] / 16) && s[2 * i + 1] == HexChar(b[i] % 16);
    }
    assert DecodePairs(s) == b;
  }

  lemma HexSnoc(s: string, c: char)
    requires AllHex(s) && IsHexDigit(c)
    ensures AllHex(s + [c]) && HexValue(s + [c]) == HexValue(s) * 16 + DigitValue(c)
  {
    assert Digits(s + [c]) == Digits(s) + [DigitValue(c)];
    EvalSnoc(Digits(s), DigitValue(c), 16);
  }

  lemma BytesSnoc(b: seq<byte>, x: byte)
    ensures BytesValue(b + [x]) == BytesValue(b) * 256 + x
  {
    var db := seq(|b|, i requires 0 <= i < |b| => b[i] as nat);
    EvalSnoc(db, x, 256);
    var all := b + [x];
    assert seq(|all|, i requires 0 <= i < |all| => all[i] as nat) == db + [x as nat];
  }

  lemma PairValue(front: string, c: char, d: char)
    requires AllHex(front) && IsHexDigit(c) && IsHexDigit(d)
    ensures AllHex(front + [c, d])
    ensures HexValue(front + [c, d]) == HexValue(front) * 256 + (DigitValue(c) * 16 + DigitValue(d))
  {
    HexSnoc(front, c);
    HexSnoc(front + [c], d);
    assert front + [c] + [d] == front + [c, d];
  }

  /** Decoding keeps the number. */
  lemma {:induction false} DecodePairsValue(s: string)
    requires |s| % 2 == 0 && AllHex(s)
    ensures BytesValue(DecodePairs(s)) == HexValue(s)
  {
    if s != "" {
      var front, c, d := s[..|s| - 2], s[|s| - 2], s[|s| - 1];
      DecodePairsValue(front);
      assert s == front + [c, d];
      PairValue(front, c, d);
      BytesSnoc(DecodePairs(front), PairByte(c, d));
      assert DecodePairs(s) == DecodePairs(front) + [PairByte(c, d)];
    }
  }

  lemma EncodeValue(b: seq<byte>)
    ensures HexValue(HexEncode(b)) == BytesValue(b)
  {
    DecodeEncode(b);
    DecodePairsValue(HexEncode(b));
  }

  // ---------- The digits themselves ----------

  /** The hex digits are these 22 characters, and each denotes its place in its row. */
  lemma HexDigitsAre(c: char)
    ensures IsHexDigit(c) <==> Contains("0123456789abcdefABCDEF", c)
    ensures forall d :: 0 <= d < 16 ==> HexChar(d) == "0123456789abcdef"[d]
    ensures forall d :: 0 <= d < 16 ==> IsHexDigit("0123456789ABCDEF"[d]) && DigitValue("0123456789ABCDEF"[d]) == d
  {
    var all := "0123456789abcdefABCDEF";
    if IsHexDigit(c) {
      var i := if IsDigit(c) then DigitValue(c) else if IsLowerHex(c) then DigitValue(c) else DigitValue(c) + 6;
      assert all[i] == c;
    }
  }

  /** Lowercasing changes nothing but the case, and never the digit. */
  lemma LowerDigits(s: string)
    requires AllHex(s)
    ensures AllLowerHex(ToLower(s)) && HexValue(ToLower(s)) == HexValue(s)
  {
    LowerKeepsDigits(s);
  }

  /** What `str::len` counts is the number of UTF-8 bytes. */
  lemma {:induction false} Utf8Length(s: string)
    ensures |Utf8(s)| == ByteLen(s)
  {
    if s != "" {
      Utf8Length(s[1..]);
    }
  }

  /** The code point that a UTF-8 sequence spells (section 3 of RFC 3629). */
  function CodePoint(bytes: seq<byte>): nat
    requires 1 <= |bytes| <= 4
  {
    if |bytes| == 1 then bytes[0]
    else if |bytes| == 2 then (bytes[0] as int % 32) * 64 + bytes[1] as int % 64
    else if |bytes| == 3 then (bytes[0] as int % 16) * 4096 + (bytes[1] as int % 64) * 64 + bytes[2] as int % 64
    else (bytes[0] as int % 8) * 262144 + (bytes[1] as int % 64) * 4096 + (bytes[2] as int % 64) * 64
         + bytes[3] as int % 64
  }

  lemma MarkedBits(q: nat)
    ensures q < 32 ==> (0xC0 + q) % 32 == q
    ensures q < 16 ==> (0xE0 + q) % 16 == q
    ensures q < 8 ==> (0xF0 + q) % 8 == q
    ensures q < 64 ==> (0x80 + q) % 64 == q
  {
  }

  lemma SixBits(u: nat)
    ensures u == (u / 64) * 64 + u % 64
    ensures u / 4096 == u / 64 / 64 && u / 262144 == u / 64 / 64 / 64
    ensures u / 4096 % 64 == u / 64 / 64 % 64
  {
  }

  lemma EncodedShape(c: char)
    ensures var u := c as int;
            var u1, u2, u3 := u / 64, u / 64 / 64, u / 64 / 64 / 64;
            EncodeChar(c) ==
            if u < 0x80 then [u]
            else if u < 0x800 then [0xC0 + u1, 0x80 + u % 64]
            else if u < 0x10000 then [0xE0 + u2, 0x80 + u1 % 64, 0x80 + u % 64]
            else [0xF0 + u3, 0x80 + u2 % 64, 0x80 + u1 % 64, 0x80 + u % 64]
  {
    SixBits(c as int);
  }

  /** Every character's UTF-8 sequence spells its code point, in bytes of the right kind. */
  lemma EncodedCharReads(c: char)
    ensures CodePoint(EncodeChar(c)) == c as int
    ensures c as int >= 0x80 ==> forall i :: 1 <= i < |EncodeChar(c)| ==> 0x80 <= EncodeChar(c)[i] < 0xC0
  {
    hide EncodeChar;
    var u := c as int;
    var u1, u2, u3 := u / 64, u / 64 / 64, u / 64 / 64 / 64;
    EncodedShape(c);
    ReadBits(u, u1, u2, u3);
  }

  lemma ReadBits(u: nat, u1: nat, u2: nat, u3: nat)
    requires u1 == u / 64 && u2 == u1 / 64 && u3 == u2 / 64
    ensures u == u1 * 64 + u % 64 && u1 == u2 * 64 + u1 % 64 && u2 == u3 * 64 + u2 % 64
    ensures u < 0x800 ==> (0xC0 + u1) % 32 == u1
    ensures u < 0x1_0000 ==> (0xE0 + u2) % 16 == u2
    ensures u < 0x20_0000 ==> (0xF0 + u3) % 8 == u3
    ensures (0x80 + u % 64) % 64 == u % 64 && (0x80 + u1 % 64) % 64 == u1 % 64 && (0x80 + u2 % 64) % 64 == u2 % 64
  {
    MarkedBits(u1);
    MarkedBits(u2);
    MarkedBits(u3);
    MarkedBits(u % 64);
    MarkedBits(u1 % 64);
    MarkedBits(u2 % 64);
  }
}
