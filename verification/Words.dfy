/**
 Backend field words: `0x`-prefixed hex of at most 32 bytes. Proof words become raw bytes and
 are split back; public words become canonical field values and are padded back.
 */
module Words {
  import opened Outcomes
  import opened Numerals
  import opened Text
  import opened Hex
  import opened FieldValues
  import opened Calldata

  // ---------- Words to bytes ----------

  function WordBytes(word: string): (r: Option<seq<byte>>)
    ensures r.Some? ==> |r.value| == 32
  {
    var hex := Strip0x(word);
    if hex == "" || ByteLen(hex) > 64 || !AllHex(hex) then None
    else
      PaddedIsHex(hex);
      HexDecode(PadZeros(hex, 64))
  }

  function ConcatWords(words: seq<string>): Option<seq<byte>> {
    if words == [] then Some([]) else
      var front :- ConcatWords(words[..|words| - 1]);
      var last :- WordBytes(words[|words| - 1]);
      Some(front + last)
  }

  /** A digest is a word of exactly 32 bytes. */
  function DigestBytes(hex: string): Option<seq<byte>> {
    var bare := Strip0x(hex);
    if ByteLen(bare) != 64 || !AllHex(bare) then None else WordBytes(hex)
  }

  method ConcatWordBytes(words: seq<string>) returns (r: Option<seq<byte>>)
    ensures r == ConcatWords(words)
  {
    var out := [];
    for i := 0 to |words|
      invariant ConcatWords(words[..i]) == Some(out)
    {
      var bytes := WordBytes(words[i]);
      ConcatPrefix(words, i);
      if bytes.None? {
        NoneStaysNone(words, i + 1);
        return None;
      }
      out := out + bytes.value;
    }
    assert words[..|words|] == words;
    r := Some(out);
  }

  lemma ConcatPrefix(words: seq<string>, i: nat)
    requires i < |words|
    ensures ConcatWords(words[..i + 1]) ==
            match ConcatWords(words[..i])
            case None => None
            case Some(front) => match WordBytes(words[i])
                                case None => None
                                case Some(last) => Some(front + last)
  {
    assert words[..i + 1][..i] == words[..i];
  }

  lemma {:induction false} NoneStaysNone(words: seq<string>, i: nat)
    requires i <= |words| && ConcatWords(words[..i]) == None
    ensures ConcatWords(words) == None
    decreases |words| - i
  {
    if i == |words| {
      assert words[..i] == words;
    } else {
      ConcatPrefix(words, i);
      NoneStaysNone(words, i + 1);
    }
  }

  /** Concatenating fails exactly on a malformed word. */
  lemma {:induction false} ConcatNoneIff(words: seq<string>)
    ensures ConcatWords(words).None? <==> exists i :: 0 <= i < |words| && WordBytes(words[i]).None?
  {
    if words != [] {
      hide WordBytes, ConcatWords;
      var n := |words| - 1;
      var front := words[..n];
      ConcatNoneIff(front);
      ConcatSnoc(front, words[n]);
      assert words == front + [words[n]];
    }
  }

  // ---------- Bytes to words ----------

  function PrintWord(chunk: seq<byte>): string {
    "0x" + HexEncode(chunk)
  }

  /** The verifier's word list: 32-byte chunks, printed. */
  function Resplit(bytes: seq<byte>, count: nat): (words: seq<string>)
    requires |bytes| == 32 * count
    ensures |words| == count
  {
    if count == 0 then [] else
      var n := |bytes| - 32;
      Resplit(bytes[..n], count - 1) + [PrintWord(bytes[n..])]
  }

  /** The number a word denotes. */
  function WordValue(word: string): nat
    requires AllHex(Strip0x(word))
  {
    HexValue(Strip0x(word))
  }

  lemma WordBytesValue(word: string)
    requires WordBytes(word).Some?
    ensures AllHex(Strip0x(word)) && BytesValue(WordBytes(word).value) == WordValue(word)
  {
    var hex := Strip0x(word);
    PaddedIsHex(hex);
    DecodePairsValue(PadZeros(hex, 64));
  }

  lemma PrintedWordReads(chunk: seq<byte>)
    requires |chunk| == 32
    ensures Strip0x(PrintWord(chunk)) == HexEncode(chunk)
    ensures WordBytes(PrintWord(chunk)) == Some(chunk)
  {
    NoHexPrefix(HexEncode(chunk));
    HexIsAscii(HexEncode(chunk));
    Hex.DecodeEncode(chunk);
  }

  predicate SameWord(a: string, b: string) {
    AllHex(Strip0x(a)) && AllHex(Strip0x(b)) && WordValue(a) == WordValue(b)
  }

  /** Two word lists that denote the same numbers in the same order. */
  predicate SameWords(a: seq<string>, b: seq<string>) {
    |a| == |b| && forall i :: 0 <= i < |a| ==> SameWord(a[i], b[i])
  }

  lemma ConcatSnoc(words: seq<string>, word: string)
    ensures ConcatWords(words + [word]) ==
            match ConcatWords(words)
            case None => None
            case Some(front) => match WordBytes(word)
                                case None => None
                                case Some(last) => Some(front + last)
  {
    assert (words + [word])[..|words|] == words;
  }

  lemma ResplitSnoc(bytes: seq<byte>, count: nat, chunk: seq<byte>)
    requires |bytes| == 32 * count && |chunk| == 32
    ensures Resplit(bytes + chunk, count + 1) == Resplit(bytes, count) + [PrintWord(chunk)]
  {
    assert (bytes + chunk)[..|bytes|] == bytes && (bytes + chunk)[|bytes|..] == chunk;
  }

  lemma SameWordsSnoc(a: seq<string>, b: seq<string>, x: string, y: string)
    requires SameWords(a, b) && SameWord(x, y)
    ensures SameWords(a + [x], b + [y])
  {
  }

  lemma ReprintedWord(word: string)
    requires WordBytes(word).Some?
    ensures SameWord(PrintWord(WordBytes(word).value), word)
    ensures WordBytes(PrintWord(WordBytes(word).value)) == WordBytes(word)
  {
    var chunk := WordBytes(word).value;
    WordBytesValue(word);
    PrintedWordReads(chunk);
    EncodeValue(chunk);
  }

  /**
   Proof words survive storage as raw bytes: splitting the bytes again gives as many words,
   with the same numbers, and concatenating those gives the same bytes.
   */
  lemma {:induction false} ProofWordsSurvive(words: seq<string>)
    requires ConcatWords(words).Some?
    ensures |ConcatWords(words).value| == 32 * |words|
    ensures SameWords(Resplit(ConcatWords(words).value, |words|), words)
    ensures ConcatWords(Resplit(ConcatWords(words).value, |words|)) == ConcatWords(words)
  {
    hide WordBytes, PrintWord, SameWord;
    if words != [] {
      var n := |words| - 1;
      var front, last := words[..n], words[n];
      assert words == front + [last];
      ConcatSnoc(front, last);
      ProofWordsSurvive(front);
      var bytes, chunk := ConcatWords(front).value, WordBytes(last).value;
      ReprintedWord(last);
      ResplitSnoc(bytes, n, chunk);
      SameWordsSnoc(Resplit(bytes, n), front, PrintWord(chunk), last);
      ConcatSnoc(Resplit(bytes, n), PrintWord(chunk));
    }
  }

  /** Any whole number of 32-byte words is what its printed words concatenate to. */
  lemma {:induction false} ResplitConcat(bytes: seq<byte>, count: nat)
    requires |bytes| == 32 * count
    ensures ConcatWords(Resplit(bytes, count)) == Some(bytes)
  {
    hide WordBytes, PrintWord;
    if count > 0 {
      var n := |bytes| - 32;
      var front, chunk := bytes[..n], bytes[n..];
      assert bytes == front + chunk;
      ResplitConcat(front, count - 1);
      ResplitSnoc(front, count - 1, chunk);
      PrintedWordReads(chunk);
      ConcatSnoc(Resplit(front, count - 1), PrintWord(chunk));
    }
  }

  /** Two digests agree as bytes exactly when they denote the same 256-bit number. */
  lemma DigestsAgree(a: string, b: string)
    requires DigestBytes(a).Some? && DigestBytes(b).Some?
    ensures DigestBytes(a) == DigestBytes(b) <==> WordValue(a) == WordValue(b)
  {
    WordBytesValue(a);
    WordBytesValue(b);
    if WordValue(a) == WordValue(b) {
      BytesSameWidthUnique(WordBytes(a).value, WordBytes(b).value);
    }
  }

  // ---------- Public words ----------

  function FieldFromWord(word: string): Result<FieldValue, FieldError> {
    var trimmed := TrimZeros(Strip0x(word));
    FromHex(if trimmed == "" then "0" else trimmed)
  }

  /** The word the verifier hands back to the backend. */
  function PaddedWord(v: FieldValue): string {
    "0x" + PadZeros(v, 64)
  }

  lemma {:induction false} TrimmedHexMeansHex(s: string)
    requires AllHex(TrimZeros(s))
    ensures AllHex(s)
  {
    if s != "" && s[0] == '0' {
      TrimmedHexMeansHex(s[1..]);
      assert s == [s[0]] + s[1..];
    }
  }

  /**
   A word is named exactly when it is hex and fits 256 bits once its zeros are gone; the value
   is the number it denotes. Any number of extra zeros is tolerated, unlike in proof words.
   */
  lemma FieldFromWordMeaning(word: string)
    ensures FieldFromWord(word).Ok? <==>
            AllHex(Strip0x(word)) && |TrimZeros(Strip0x(word))| <= 64
    ensures FieldFromWord(word).Ok? ==> Value(FieldFromWord(word).value) == WordValue(word)
  {
    var bare := Strip0x(word);
    var trimmed := TrimZeros(bare);
    var canonical := if trimmed == "" then "0" else trimmed;
    NoLeadingZeros(bare);
    assert Strip0x(canonical) == canonical;
    if AllHex(bare) {
      TrimZerosDigits(bare);
      HexIsAscii(canonical);
      if |trimmed| <= 64 {
        FromHexValue(canonical);
        DropZerosValue(Digits(bare), 16);
        ZeroDigit();
      }
    } else {
      if AllHex(trimmed) {
        TrimmedHexMeansHex(bare);
      }
    }
  }

  lemma {:induction false} NoLeadingZeros(s: string)
    ensures TrimZeros(s) == "" || TrimZeros(s)[0] != '0'
  {
    if s != "" && s[0] == '0' {
      NoLeadingZeros(s[1..]);
    }
  }

  lemma PaddedWordReads(v: FieldValue)
    ensures WordBytes(PaddedWord(v)) == Some(EncodeField(v))
    ensures AllHex(Strip0x(PaddedWord(v))) && WordValue(PaddedWord(v)) == Value(v)
  {
    var padded := PadZeros(v, 64);
    PaddedIsHex(v);
    NoHexPrefix(padded);
    HexIsAscii(padded);
    assert PadZeros(padded, 64) == padded;
  }

  /**
   The backend, the field values and on-chain calldata agree on every word: what the proof
   side reads as 32 bytes is the calldata encoding of the named value, and the padded word
   the verifier writes reads back as those same bytes.
   */
  lemma WordFormatsAgree(word: string)
    requires WordBytes(word).Some?
    ensures FieldFromWord(word).Ok?
    ensures WordBytes(word).value == EncodeField(FieldFromWord(word).value)
    ensures WordBytes(PaddedWord(FieldFromWord(word).value)) == WordBytes(word)
  {
    var bare := Strip0x(word);
    HexIsAscii(bare);
    TrimZerosDigits(bare);
    FieldFromWordMeaning(word);
    var v := FieldFromWord(word).value;
    WordBytesValue(word);
    FieldKeepsValue(v);
    BytesSameWidthUnique(WordBytes(word).value, EncodeField(v));
    PaddedWordReads(v);
  }

  // ---------- Which words are accepted, and how they are written ----------

  /** A proof word is accepted exactly when it is 1 to 64 hex digits behind an optional `0x`. */
  lemma WordBytesIff(word: string)
    ensures WordBytes(word).Some? <==> 1 <= |Strip0x(word)| <= 64 && AllHex(Strip0x(word))
    ensures WordBytes(word).Some? ==>
              |WordBytes(word).value| == 32 && BytesValue(WordBytes(word).value) == WordValue(word)
  {
    if AllHex(Strip0x(word)) {
      HexIsAscii(Strip0x(word));
    }
    if WordBytes(word).Some? {
      WordBytesValue(word);
    }
  }

  /** A digest is accepted exactly when it is 64 hex digits behind an optional `0x`. */
  lemma DigestBytesIff(hex: string)
    ensures DigestBytes(hex).Some? <==> |Strip0x(hex)| == 64 && AllHex(Strip0x(hex))
    ensures DigestBytes(hex).Some? ==> BytesValue(DigestBytes(hex).value) == WordValue(hex)
  {
    hide WordBytes;
    if AllHex(Strip0x(hex)) {
      HexIsAscii(Strip0x(hex));
    }
    WordBytesIff(hex);
  }

  /** The verifier prints `0x` and 64 lowercase digits, for proof bytes and for public values. */
  lemma PrintedWordText(chunk: seq<byte>, v: FieldValue)
    requires |chunk| == 32
    ensures PrintWord(chunk) == "0x" + HexEncode(chunk) && |PrintWord(chunk)| == 66
    ensures |PaddedWord(v)| == 66 && PaddedWord(v)[..2] == "0x" && AllLowerHex(PaddedWord(v)[2..])
    ensures HexValue(PaddedWord(v)[2..]) == Value(v)
  {
    PaddedIsHex(v);
    assert PaddedWord(v)[2..] == PadZeros(v, 64);
  }

  /** The words of the split are the 32-byte pieces in order. */
  lemma {:induction false} ResplitAt(bytes: seq<byte>, count: nat, i: nat)
    requires |bytes| == 32 * count && i < count
    ensures Resplit(bytes, count)[i] == "0x" + HexEncode(bytes[32 * i..32 * i + 32])
  {
    hide HexEncode;
    var n := |bytes| - 32;
    if i < count - 1 {
      ResplitAt(bytes[..n], count - 1, i);
      assert bytes[..n][32 * i..32 * i + 32] == bytes[32 * i..32 * i + 32];
    } else {
      assert bytes[n..] == bytes[32 * i..32 * i + 32];
    }
  }
}
