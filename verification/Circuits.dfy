/**
 Circuit identity: operations and their pinned interfaces, circuit ids, and
 `major.minor.patch` versions over 32-bit components.
 */
module Circuits {
  import opened Outcomes
  import opened Numerals
  import opened Text
  import opened Bags

  // ---------- Decimal u32 ----------

  const U32_LIMIT: nat := 0x1_0000_0000

  type u32 = x: int | 0 <= x < 0x1_0000_0000

  predicate AllDigits(s: string) {
    forall i :: 0 <= i < |s| ==> IsDigit(s[i])
  }

  function DecimalDigits(s: string): (ds: seq<nat>)
    requires AllDigits(s)
    ensures |ds| == |s| && AreDigits(ds, 10)
    ensures forall i :: 0 <= i < |s| ==> ds[i] == s[i] as int - '0' as int
  {
    seq(|s|, i requires 0 <= i < |s| => s[i] as int - '0' as int)
  }

  function DecimalString(ds: seq<nat>): (s: string)
    requires AreDigits(ds, 10)
    ensures |s| == |ds| && AllDigits(s) && DecimalDigits(s) == ds
  {
    var s := seq(|ds|, i requires 0 <= i < |ds| => (ds[i] + '0' as int) as char);
    assert DecimalDigits(s) == ds;
    s
  }

  lemma DecimalDigitsInjective(a: string, b: string)
    requires AllDigits(a) && AllDigits(b) && DecimalDigits(a) == DecimalDigits(b)
    ensures a == b
  {
    forall i | 0 <= i < |a| ensures a[i] == b[i] {
      assert DecimalDigits(a)[i] == DecimalDigits(b)[i];
    }
  }

  /** How an unsigned integer is displayed. */
  function ToDecimal(n: nat): (s: string)
    ensures |s| >= 1 && AllDigits(s)
  {
    PrintCorrect(n, 10);
    DecimalString(Print(n, 10))
  }

  /** The text behind one optional plus sign. */
  function Unsigned(s: string): string {
    StripPrefix(s, "+").GetOr(s)
  }

  lemma UnsignedBack(s: string)
    ensures s == (if "+" <= s then "+" else "") + Unsigned(s)
  {
  }

  /** `u32::from_str`: an optional plus sign, then digits denoting a 32-bit number. */
  function ParseU32(s: string): Option<u32> {
    var body := Unsigned(s);
    if body == "" || !AllDigits(body) then None
    else
      var n := Eval(DecimalDigits(body), 10);
      if n < U32_LIMIT then Some(n) else None
  }

  /** The text `n` with an optional sign and `zeros` extra zeros in front. */
  function Spelling(n: nat, plus: bool, zeros: nat): string {
    (if plus then "+" else "") + (Zeros(zeros) + ToDecimal(n))
  }

  lemma ZerosThenDigits(zeros: nat, digits: string)
    requires AllDigits(digits)
    ensures AllDigits(Zeros(zeros) + digits)
    ensures DecimalDigits(Zeros(zeros) + digits) == ZeroDigits(zeros) + DecimalDigits(digits)
  {
  }

  lemma SpellingBody(n: nat, plus: bool, zeros: nat)
    ensures var body := Zeros(zeros) + ToDecimal(n);
            AllDigits(body) && Unsigned(Spelling(n, plus, zeros)) == body
  {
    var s, body := Spelling(n, plus, zeros), Zeros(zeros) + ToDecimal(n);
    ZerosThenDigits(zeros, ToDecimal(n));
    assert IsDigit(body[0]);
    if plus {
      assert s == "+" + body && s[1..] == body;
    } else {
      assert s == body;
      assert s[0] != '+';
    }
  }

  lemma SpellingParses(n: u32, plus: bool, zeros: nat)
    ensures ParseU32(Spelling(n, plus, zeros)) == Some(n)
  {
    SpellingBody(n, plus, zeros);
    ZerosThenDigits(zeros, ToDecimal(n));
    PrintCorrect(n, 10);
    ZeroDigitsValue(zeros, Print(n, 10), 10);
  }

  lemma DigitsArePadded(body: string)
    requires AllDigits(body) && body != ""
    ensures var n := Eval(DecimalDigits(body), 10);
            |ToDecimal(n)| <= |body| && body == Zeros(|body| - |ToDecimal(n)|) + ToDecimal(n)
  {
    var ds := DecimalDigits(body);
    var n := Eval(ds, 10);
    LeadingZerosOnly(ds, 10);
    var zeros := |ds| - |Print(n, 10)|;
    ZerosThenDigits(zeros, ToDecimal(n));
    DecimalDigitsInjective(body, Zeros(zeros) + ToDecimal(n));
  }

  lemma ParsedDigits(s: string, n: u32)
    requires ParseU32(s) == Some(n)
    ensures |ToDecimal(n)| <= |Unsigned(s)|
    ensures Unsigned(s) == Zeros(|Unsigned(s)| - |ToDecimal(n)|) + ToDecimal(n)
  {
    DigitsArePadded(Unsigned(s));
  }

  lemma ParsedIsSpelling(s: string, n: u32) returns (plus: bool, zeros: nat)
    requires ParseU32(s) == Some(n)
    ensures s == Spelling(n, plus, zeros)
  {
    plus := "+" <= s;
    UnsignedBack(s);
    ParsedDigits(s, n);
    zeros := |Unsigned(s)| - |ToDecimal(n)|;
  }

  /** Parsing is many to one: the accepted texts of `n` are exactly its spellings. */
  lemma ParseU32Spellings(s: string, n: u32)
    ensures ParseU32(s) == Some(n) <==> exists plus, zeros :: s == Spelling(n, plus, zeros)
  {
    if ParseU32(s) == Some(n) {
      var plus, zeros := ParsedIsSpelling(s, n);
    }
    if exists plus, zeros :: s == Spelling(n, plus, zeros) {
      var plus, zeros :| s == Spelling(n, plus, zeros);
      SpellingParses(n, plus, zeros);
    }
  }

  lemma U32RoundTrip(n: u32)
    ensures ParseU32(ToDecimal(n)) == Some(n)
  {
    assert ToDecimal(n) == Spelling(n, false, 0);
    SpellingParses(n, false, 0);
  }

  // ---------- Versions ----------

  datatype Version = Version(major: u32, minor: u32, patch: u32)

  function DisplayVersion(v: Version): string {
    Join([ToDecimal(v.major), ToDecimal(v.minor), ToDecimal(v.patch)], '.')
  }

  function ParseVersion(s: string): Option<Version> {
    var parts := Split(s, '.');
    if |parts| != 3 then None
    else
      var major :- ParseU32(parts[0]);
      var minor :- ParseU32(parts[1]);
      var patch :- ParseU32(parts[2]);
      Some(Version(major, minor, patch))
  }

  lemma VersionRoundTrip(v: Version)
    ensures ParseVersion(DisplayVersion(v)) == Some(v)
  {
    SplitJoin([ToDecimal(v.major), ToDecimal(v.minor), ToDecimal(v.patch)], '.');
    U32RoundTrip(v.major);
    U32RoundTrip(v.minor);
    U32RoundTrip(v.patch);
  }

  lemma DisplayVersionInjective(a: Version, b: Version)
    requires DisplayVersion(a) == DisplayVersion(b)
    ensures a == b
  {
    VersionRoundTrip(a);
    VersionRoundTrip(b);
  }

  predicate IsVersionChar(c: char) {
    IsDigit(c) || c == '.'
  }

  lemma DisplayVersionChars(v: Version)
    ensures |DisplayVersion(v)| >= 5
    ensures forall i :: 0 <= i < |DisplayVersion(v)| ==> IsVersionChar(DisplayVersion(v)[i])
  {
    var parts := [ToDecimal(v.major), ToDecimal(v.minor), ToDecimal(v.patch)];
    assert Join(parts, '.') == parts[0] + "." + Join(parts[1..], '.');
    assert Join(parts[1..], '.') == parts[1] + "." + Join(parts[1..][1..], '.');
    assert parts[1..][1..] == [parts[2]];
  }

  /** Exactly three dot-free parts, each a 32-bit number in any accepted spelling. */
  predicate SpellsVersion(s: string, a: string, b: string, c: string, v: Version) {
    && s == a + "." + b + "." + c
    && !Contains(a, '.') && !Contains(b, '.') && !Contains(c, '.')
    && ParseU32(a) == Some(v.major) && ParseU32(b) == Some(v.minor) && ParseU32(c) == Some(v.patch)
  }

  lemma JoinThree(a: string, b: string, c: string, sep: char)
    ensures Join([a, b, c], sep) == a + [sep] + b + [sep] + c
  {
    assert [a, b, c][1..] == [b, c] && [b, c][1..] == [c];
    assert Join([b, c], sep) == b + [sep] + c;
    assert Join([a, b, c], sep) == a + [sep] + (b + [sep] + c);
  }

  /** A text parses to a version exactly when it is three numbers with dots between them. */
  lemma ParseVersionIff(s: string, v: Version)
    ensures ParseVersion(s) == Some(v) <==> exists a, b, c :: SpellsVersion(s, a, b, c, v)
    ensures DisplayVersion(v) == ToDecimal(v.major) + "." + ToDecimal(v.minor) + "." + ToDecimal(v.patch)
  {
    hide ParseU32, ToDecimal;
    JoinThree(ToDecimal(v.major), ToDecimal(v.minor), ToDecimal(v.patch), '.');
    if ParseVersion(s) == Some(v) {
      var parts := Split(s, '.');
      JoinSplit(s, '.');
      assert parts == [parts[0], parts[1], parts[2]];
      JoinThree(parts[0], parts[1], parts[2], '.');
      assert SpellsVersion(s, parts[0], parts[1], parts[2], v);
    }
    if a, b, c :| SpellsVersion(s, a, b, c, v) {
      JoinThree(a, b, c, '.');
      SplitJoin([a, b, c], '.');
    }
  }

  // ---------- Circuit ids ----------

  const MAX_CIRCUIT_ID_LEN := 128

  datatype CircuitIdError = InvalidLength(actual: nat, max: nat) | InvalidCharacters

  predicate IsCircuitIdChar(c: char) {
    IsLower(c) || IsUpper(c) || IsDigit(c) || c in "-_."
  }

  predicate IsCircuitId(s: string) {
    1 <= |s| <= MAX_CIRCUIT_ID_LEN && forall i :: 0 <= i < |s| ==> IsCircuitIdChar(s[i])
  }

  type CircuitId = s: string | IsCircuitId(s) witness "a"

  function NewCircuitId(id: string): Result<CircuitId, CircuitIdError> {
    if id == "" || ByteLen(id) > MAX_CIRCUIT_ID_LEN then
      Err(InvalidLength(ByteLen(id), MAX_CIRCUIT_ID_LEN))
    else if exists i :: 0 <= i < |id| && !IsCircuitIdChar(id[i]) then Err(InvalidCharacters)
    else Ok(id)
  }

  lemma CircuitIdAccepted(id: string)
    ensures NewCircuitId(id).Ok? <==> IsCircuitId(id)
    ensures IsCircuitId(id) ==> NewCircuitId(id) == Ok(id) && ByteLen(id) == |id|
  {
    if IsCircuitId(id) {
      assert forall i :: 0 <= i < |id| ==> IsCircuitIdChar(id[i]) ==> IsAscii(id[i]);
      AsciiByteLen(id);
    }
  }

  // ---------- Operations and their interfaces ----------

  datatype Operation = Register | Deposit | Merge | Transfer | Withdraw

  function OperationName(op: Operation): CircuitId {
    match op
    case Register => "register"
    case Deposit => "deposit"
    case Merge => "merge"
    case Transfer => "transfer"
    case Withdraw => "withdraw"
  }

  function PrivateNames(op: Operation): seq<string> {
    match op
    case Register => ["account_sk"]
    case Deposit => ["account_sk", "old_amount", "old_blinding", "amount", "blinding"]
    case Merge => ["account_sk", "amount_a", "blinding_a", "amount_b", "blinding_b", "blinding"]
    case Transfer => ["sender_sk", "amount", "old_amount", "old_blinding", "recipient_blinding",
                      "change_blinding"]
    case Withdraw => ["account_sk", "amount", "old_amount", "old_blinding", "change_blinding"]
  }

  function PublicParams(op: Operation): seq<string> {
    match op
    case Register => ["account_address"]
    case Deposit => ["token_address", "account_address", "old_commitment"]
    case Merge => ["token_address", "account_address", "commitment_a", "commitment_b", "root_hi",
                   "root_lo"]
    case Transfer => ["token_address", "sender_address", "recipient_address",
                      "old_sender_commitment", "root_hi", "root_lo"]
    case Withdraw => ["token_address", "account_address", "commitment", "root_hi", "root_lo"]
  }

  function Returns(op: Operation): seq<string> {
    match op
    case Register => []
    case Deposit => ["new_commitment", "nullifier"]
    case Merge => ["merged_commitment", "nullifier_a", "nullifier_b"]
    case Transfer => ["recipient_commitment", "change_commitment", "nullifier"]
    case Withdraw => ["change_commitment", "nullifier"]
  }

  /** Every public name a proof commits to, in the order the backend reports the words. */
  function PublicNames(op: Operation): seq<string> {
    PublicParams(op) + Returns(op)
  }

  predicate StateBound(op: Operation) {
    op.Merge? || op.Transfer? || op.Withdraw?
  }

  lemma PlainName(name: string)
    requires 1 <= |name| <= MAX_NAME_LEN
    requires forall i :: 0 <= i < |name| ==> IsNameChar(name[i])
    ensures ValidName(name)
  {
    assert forall i :: 0 <= i < |name| ==> IsAscii(name[i]);
    AsciiByteLen(name);
    NameTextChars(name);
  }

  lemma ParamNamesValid(op: Operation)
    ensures forall i :: 0 <= i < |PublicParams(op)| ==> ValidName(PublicParams(op)[i])
  {
    hide ValidName;
    PlainName("account_address");
    PlainName("token_address");
    PlainName("old_commitment");
    PlainName("commitment_a");
    PlainName("commitment_b");
    PlainName("root_hi");
    PlainName("root_lo");
    PlainName("sender_address");
    PlainName("recipient_address");
    PlainName("old_sender_commitment");
    PlainName("commitment");
  }

  lemma ReturnNamesValid(op: Operation)
    ensures forall i :: 0 <= i < |Returns(op)| ==> ValidName(Returns(op)[i])
  {
    hide ValidName;
    PlainName("new_commitment");
    PlainName("nullifier");
    PlainName("merged_commitment");
    PlainName("nullifier_a");
    PlainName("nullifier_b");
    PlainName("recipient_commitment");
    PlainName("change_commitment");
  }

  /**
   The pinned public surfaces are usable as bag names, all different, and hold the two root
   halves exactly for the state-bound operations.
   */
  lemma PublicNamesUsable(op: Operation)
    ensures forall i :: 0 <= i < |PublicNames(op)| ==> ValidName(PublicNames(op)[i])
    ensures forall i, j :: 0 <= i < j < |PublicNames(op)| ==> PublicNames(op)[i] != PublicNames(op)[j]
    ensures StateBound(op) <==> "root_hi" in PublicParams(op)
    ensures StateBound(op) <==> "root_lo" in PublicParams(op)
  {
    ParamNamesValid(op);
    ReturnNamesValid(op);
    PublicNamesDiffer(op);
    RootNamesIffStateBound(op);
  }

  lemma RootNamesIffStateBound(op: Operation)
    ensures StateBound(op) <==> "root_hi" in PublicParams(op)
    ensures StateBound(op) <==> "root_lo" in PublicParams(op)
  {
    if StateBound(op) {
      var i := |PublicParams(op)| - 2;
      assert PublicParams(op)[i] == "root_hi" && PublicParams(op)[i + 1] == "root_lo";
    }
  }

  lemma PublicNamesDiffer(op: Operation)
    ensures forall i, j :: 0 <= i < j < |PublicNames(op)| ==> PublicNames(op)[i] != PublicNames(op)[j]
  {
  }

  // ---------- What a circuit id may hold ----------

  /** Accepted are 1 to 128 of these characters; the length is checked first and counted in bytes. */
  lemma CircuitIdMeaning(id: string)
    ensures NewCircuitId(id).Ok? <==>
            1 <= |id| <= 128
            && forall i :: 0 <= i < |id| ==>
                 IsLower(id[i]) || IsUpper(id[i]) || IsDigit(id[i]) || id[i] == '-' || id[i] == '_' || id[i] == '.'
    ensures NewCircuitId(id) == Err(InvalidLength(ByteLen(id), 128)) <==> id == "" || ByteLen(id) > 128
    ensures NewCircuitId(id).Err? && id != "" && ByteLen(id) <= 128 ==> NewCircuitId(id) == Err(InvalidCharacters)
  {
    CircuitIdAccepted(id);
  }

  /** The pinned interfaces, as the circuits declare them. */
  lemma PinnedInterfaces()
    ensures PrivateNames(Register) == ["account_sk"] && PublicNames(Register) == ["account_address"]
    ensures PrivateNames(Deposit) == ["account_sk", "old_amount", "old_blinding", "amount", "blinding"]
    ensures PublicNames(Deposit)
         == ["token_address", "account_address", "old_commitment", "new_commitment", "nullifier"]
    ensures PrivateNames(Merge) == ["account_sk", "amount_a", "blinding_a", "amount_b", "blinding_b", "blinding"]
    ensures PublicNames(Merge)
         == ["token_address", "account_address", "commitment_a", "commitment_b", "root_hi", "root_lo",
             "merged_commitment", "nullifier_a", "nullifier_b"]
    ensures PrivateNames(Transfer)
         == ["sender_sk", "amount", "old_amount", "old_blinding", "recipient_blinding", "change_blinding"]
    ensures PublicNames(Transfer)
         == ["token_address", "sender_address", "recipient_address", "old_sender_commitment", "root_hi", "root_lo",
             "recipient_commitment", "change_commitment", "nullifier"]
    ensures PrivateNames(Withdraw) == ["account_sk", "amount", "old_amount", "old_blinding", "change_blinding"]
    ensures PublicNames(Withdraw)
         == ["token_address", "account_address", "commitment", "root_hi", "root_lo", "change_commitment", "nullifier"]
    ensures |PublicParams(Register)| == 1 && |PublicParams(Deposit)| == 3 && |PublicParams(Merge)| == 6
    ensures |PublicParams(Transfer)| == 6 && |PublicParams(Withdraw)| == 5
  {
  }
}
