/**
 A byte form for mock envelopes with the one property assumed of JSON, that decoding inverts
 encoding. It is no JSON: it shows that the assumption can be met.
 */
module EnvelopeCodec {
  import opened Outcomes
  import opened Text
  import opened Hex
  import opened Mock

  // ---------- Lists of texts as bytes ----------

  /** A one, then three bytes, most significant first. */
  function CharToBytes(c: char): (b: seq<byte>)
    ensures |b| == 4 && b[0] == 1
  {
    var n := c as int;
    [1, n / 0x1_0000, (n / 0x100) % 0x100, n % 0x100]
  }

  predicate IsCode(n: int) {
    0 <= n < 0xD800 || 0xE000 <= n < 0x11_0000
  }

  function CharFromBytes(b: seq<byte>): Option<char>
    requires |b| == 4
  {
    var n := (b[1] as int) * 0x1_0000 + (b[2] as int) * 0x100 + b[3] as int;
    if IsCode(n) then Some(n as char) else None
  }

  lemma CharRoundTrip(c: char)
    ensures CharFromBytes(CharToBytes(c)) == Some(c)
  {
    var n := c as int;
    assert n == (n / 0x100) * 0x100 + n % 0x100;
    assert n / 0x100 == (n / 0x1_0000) * 0x100 + (n / 0x100) % 0x100;
  }

  /** Each text ends with a zero. */
  function ToBytes(texts: seq<string>): seq<byte>
    decreases |texts|, if texts == [] then 0 else |texts[0]|
  {
    if texts == [] then []
    else if texts[0] == "" then [0] + ToBytes(texts[1..])
    else CharToBytes(texts[0][0]) + ToBytes([texts[0][1..]] + texts[1..])
  }

  function FromBytes(bytes: seq<byte>): Option<seq<string>> {
    if bytes == [] then Some([])
    else if bytes[0] == 0 then
      var rest :- FromBytes(bytes[1..]);
      Some([""] + rest)
    else if |bytes| < 4 then None
    else
      var c :- CharFromBytes(bytes[..4]);
      var rest :- FromBytes(bytes[4..]);
      if rest == [] then None else Some([[c] + rest[0]] + rest[1..])
  }

  lemma {:induction false} TextsRoundTrip(texts: seq<string>)
    ensures FromBytes(ToBytes(texts)) == Some(texts)
    decreases |texts|, if texts == [] then 0 else |texts[0]|
  {
    if texts == [] {
    } else if texts[0] == "" {
      TextsRoundTrip(texts[1..]);
      assert ToBytes(texts)[1..] == ToBytes(texts[1..]);
      assert texts == [""] + texts[1..];
    } else {
      hide CharToBytes, CharFromBytes;
      var c, shorter := texts[0][0], [texts[0][1..]] + texts[1..];
      var bytes := CharToBytes(c) + ToBytes(shorter);
      TextsRoundTrip(shorter);
      CharRoundTrip(c);
      CharBytesShape(c);
      assert ToBytes(texts) == bytes && bytes[..4] == CharToBytes(c) && bytes[4..] == ToBytes(shorter);
      assert [c] + shorter[0] == texts[0] && shorter[1..] == texts[1..];
      assert texts == [texts[0]] + texts[1..];
    }
  }

  lemma CharBytesShape(c: char)
    ensures |CharToBytes(c)| == 4 && CharToBytes(c)[0] == 1
  {
  }

  // ---------- Envelopes as lists of texts ----------

  function OutputTexts(out: seq<(string, string)>): seq<string> {
    if out == [] then [] else [out[0].0, out[0].1] + OutputTexts(out[1..])
  }

  function TextOutputs(texts: seq<string>): Option<seq<(string, string)>> {
    if texts == [] then Some([])
    else if |texts| == 1 then None
    else
      var rest :- TextOutputs(texts[2..]);
      Some([(texts[0], texts[1])] + rest)
  }

  /** Four texts: whether there is a state, its root, its sequence in strokes, and its label if any. */
  function StateTexts(state: Option<WireState>): (texts: seq<string>)
    ensures |texts| == 4
  {
    match state
    case None => ["", "", "", ""]
    case Some(s) => ["s", s.root, Zeros(s.sequence), if s.humanLabel.Some? then "l" + s.humanLabel.value else ""]
  }

  function TextState(texts: seq<string>): Option<WireState>
    requires |texts| == 4
  {
    if texts[0] == "" then None
    else Some(WireState(texts[1], |texts[2]|, if texts[3] == "" then None else Some(texts[3][1..])))
  }

  function Texts(w: Wire): seq<string> {
    [w.kind, w.circuit, w.circuitVersion, w.backend, w.keyId, w.checksum]
    + StateTexts(w.state) + OutputTexts(w.outputs)
  }

  function FromTexts(texts: seq<string>): Option<Wire> {
    if |texts| < 10 then None
    else
      var outputs :- TextOutputs(texts[10..]);
      Some(Wire(texts[0], texts[1], texts[2], texts[3], texts[4], texts[5], outputs, TextState(texts[6..10])))
  }

  lemma {:induction false} OutputTextsRoundTrip(out: seq<(string, string)>)
    ensures TextOutputs(OutputTexts(out)) == Some(out)
  {
    if out != [] {
      OutputTextsRoundTrip(out[1..]);
      assert OutputTexts(out)[2..] == OutputTexts(out[1..]);
      assert out == [(out[0].0, out[0].1)] + out[1..];
    }
  }

  lemma StateRoundTrip(state: Option<WireState>)
    ensures TextState(StateTexts(state)) == state
  {
  }

  lemma EnvelopeRoundTrip(w: Wire)
    ensures FromTexts(Texts(w)) == Some(w)
  {
    var head := [w.kind, w.circuit, w.circuitVersion, w.backend, w.keyId, w.checksum];
    var state, out := StateTexts(w.state), OutputTexts(w.outputs);
    hide StateTexts, TextState, OutputTexts, TextOutputs;
    StateRoundTrip(w.state);
    OutputTextsRoundTrip(w.outputs);
    var all := head + state + out;
    assert all[6..10] == state && all[10..] == out;
  }

  function Codec(): Json {
    Json(w => ToBytes(Texts(w)), bytes => Decoded(bytes))
  }

  function Decoded(bytes: seq<byte>): Option<Wire> {
    var texts :- FromBytes(bytes);
    FromTexts(texts)
  }

  /** The assumption about JSON can be met. */
  lemma CodecIsFaithful()
    ensures Faithful(Codec())
  {
    hide ToBytes, FromBytes, Texts, FromTexts;
    forall w ensures Codec().decode(Codec().encode(w)) == Some(w) {
      TextsRoundTrip(Texts(w));
      EnvelopeRoundTrip(w);
    }
  }
}
