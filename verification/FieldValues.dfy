/**
 The canonical field value: lowercase hex, no prefix, no leading zeros, at most 256 bits.
 Its text and its number determine each other.
 */
module FieldValues {
  import opened Outcomes
  import opened Numerals
  import opened Text
  import opened Hex

  const MAX_HEX_LEN := 64

  datatype FieldError =
    | InvalidHex
    | InvalidNameLength
    | InvalidNameCharacters
    | DuplicateName(name: string)

  predicate IsCanonicalHex(s: string) {
    1 <= |s| <= MAX_HEX_LEN && AllLowerHex(s) && (|s| > 1 ==> s[0] != '0')
  }

  /** A public or private value; both sides share one textual format. */
  type FieldValue = s: string | IsCanonicalHex(s) witness "0"

  function Strip0x(s: string): string {
    StripPrefix(s, "0x").GetOr(s)
  }

  /** Which inputs are accepted: an optional `0x`, then 1 to 64 hex digits of either case. */
  predicate Accepted(hex: string) {
    var s := Strip0x(hex);
    s != "" && ByteLen(s) <= MAX_HEX_LEN && AllHex(s)
  }

  function FromHex(hex: string): Result<FieldValue, FieldError> {
    var s := Strip0x(hex);
    if s == "" || ByteLen(s) > MAX_HEX_LEN || !AllHex(s) then Err(InvalidHex)
    else
      var trimmed := TrimZeros(ToLower(s));
      CanonicalisedIsCanonical(s);
      Ok(if trimmed == "" then "0" else trimmed)
  }

  /** The number a field value denotes. */
  function Value(v: FieldValue): nat {
    HexValue(v)
  }

  lemma CanonicalisedIsCanonical(s: string)
    requires s != "" && ByteLen(s) <= MAX_HEX_LEN && AllHex(s)
    ensures var t := TrimZeros(ToLower(s)); IsCanonicalHex(if t == "" then "0" else t)
  {
    LowerKeepsDigits(s);
    TrimZerosDigits(ToLower(s));
  }

  // ---------- Canonicalisation is numeric ----------

  /** A value is determined by its number. */
  lemma ValueInjective(a: FieldValue, b: FieldValue)
    requires Value(a) == Value(b)
    ensures a == b
  {
    CanonicalUnique(Digits(a), Digits(b), 16);
    LowerDigitsInjective(a, b);
  }

  /** Parsing keeps the number the text denotes. */
  lemma FromHexValue(hex: string)
    requires Accepted(hex)
    ensures FromHex(hex).Ok? && Value(FromHex(hex).value) == HexValue(Strip0x(hex))
  {
    hide HexValue, TrimZeros, ToLower, ByteLen;
    LowerTrimmedValue(Strip0x(hex));
    ZeroDigit();
  }

  /**
   Two accepted texts canonicalise alike exactly when they denote the same number; that
   number always fits 256 bits, and nothing else is accepted.
   */
  lemma CanonicalisationIsNumeric(a: string, b: string)
    ensures FromHex(a).Ok? <==> Accepted(a)
    ensures Accepted(a) ==> HexValue(Strip0x(a)) < Pow(16, 64)
    ensures Accepted(a) && Accepted(b) ==>
              (FromHex(a) == FromHex(b) <==> HexValue(Strip0x(a)) == HexValue(Strip0x(b)))
  {
    if Accepted(a) {
      FromHexValue(a);
      HexBound(Strip0x(a));
      PowMonotone(16, |Strip0x(a)|, 64);
      if Accepted(b) {
        FromHexValue(b);
        if HexValue(Strip0x(a)) == HexValue(Strip0x(b)) {
          ValueInjective(FromHex(a).value, FromHex(b).value);
        }
      }
    }
  }

  lemma NoHexPrefix(s: string)
    requires AllHex(s)
    ensures Strip0x(s) == s && Strip0x("0x" + s) == s
  {
    assert "0x"[1] == 'x' && !IsHexDigit('x');
    assert |s| >= 2 ==> s[1] != 'x';
  }

  lemma HexIsAscii(s: string)
    requires AllHex(s)
    ensures forall i :: 0 <= i < |s| ==> IsAscii(s[i])
    ensures ByteLen(s) == |s|
  {
    AsciiByteLen(s);
  }

  /** Canonicalisation is idempotent, and re-reading a value with its `0x` back is harmless. */
  lemma Idempotent(v: FieldValue)
    ensures FromHex(v) == Ok(v) && FromHex("0x" + v) == Ok(v)
  {
    NoHexPrefix(v);
    HexIsAscii(v);
    FromHexValue(v);
    FromHexValue("0x" + v);
    ValueInjective(FromHex(v).value, v);
    ValueInjective(FromHex("0x" + v).value, v);
  }

  // ---------- Field values are the numbers below 2^256 ----------

  function OfNat(n: nat): (v: FieldValue)
    requires n < Pow(16, 64)
    ensures Value(v) == n
  {
    PrintCorrect(n, 16);
    PrintWidth(n, 16, 64);
    var s := OfDigits(Print(n, 16));
    assert |s| > 1 ==> DigitValue(s[0]) == Print(n, 16)[0];
    s
  }

  lemma OfNatValue(v: FieldValue)
    ensures Value(v) < Pow(16, 64) && OfNat(Value(v)) == v
  {
    HexBound(v);
    PowMonotone(16, |v|, 64);
    ValueInjective(OfNat(Value(v)), v);
  }
}
