/**
 The ordered, duplicate-free bags that carry public inputs, circuit outputs and private
 witness values, and the byte form that binding hashes cover.
 */
module Bags {
  import opened Outcomes
  import opened Text
  import opened Hex
  import opened FieldValues

  datatype Entry = Entry(name: string, value: FieldValue)

  type Entries = seq<Entry>

  const MAX_NAME_LEN := 64

  predicate IsNameChar(c: char) {
    IsLower(c) || IsDigit(c) || c == '_'
  }

  predicate IsNameText(s: string) {
    s == "" || (IsNameChar(s[0]) && IsNameText(s[1..]))
  }

  lemma {:induction false} NameTextChars(s: string)
    ensures IsNameText(s) <==> forall i :: 0 <= i < |s| ==> IsNameChar(s[i])
  {
    if s != "" {
      NameTextChars(s[1..]);
      assert (forall i :: 0 <= i < |s| ==> IsNameChar(s[i])) ==>
          forall i :: 0 <= i < |s[1..]| ==> IsNameChar(s[1..][i]) by {
        assert forall i :: 0 <= i < |s[1..]| ==> s[1..][i] == s[i + 1];
      }
      assert (forall i :: 0 <= i < |s[1..]| ==> IsNameChar(s[1..][i])) && IsNameChar(s[0]) ==>
          forall i :: 0 <= i < |s| ==> IsNameChar(s[i]) by {
        assert forall i :: 0 < i < |s| ==> s[i] == s[1..][i - 1];
      }
    }
  }

  /** The reason a name is refused, if it is. */
  function ValidateName(name: string): Option<FieldError> {
    if name == "" || ByteLen(name) > MAX_NAME_LEN then Some(InvalidNameLength)
    else if !IsNameText(name) then Some(InvalidNameCharacters)
    else None
  }

  predicate ValidName(name: string) {
    ValidateName(name).None?
  }

  predicate HasName(es: Entries, name: string) {
    exists i :: 0 <= i < |es| && es[i].name == name
  }

  predicate Distinct(es: Entries) {
    forall i, j :: 0 <= i < j < |es| ==> es[i].name != es[j].name
  }

  /** What every bag built through its own operations satisfies. */
  predicate ValidEntries(es: Entries) {
    && Distinct(es)
    && forall i :: 0 <= i < |es| ==> ValidName(es[i].name)
  }

  /** The position of the first entry called `name`, or the length when there is none. */
  function Position(es: Entries, name: string): (i: nat)
    ensures i <= |es|
    ensures i < |es| ==> es[i].name == name
    ensures forall j :: 0 <= j < i ==> es[j].name != name
  {
    if es == [] || es[0].name == name then 0 else 1 + Position(es[1..], name)
  }

  function Find(es: Entries, name: string): Option<FieldValue> {
    var i := Position(es, name);
    if i < |es| then Some(es[i].value) else None
  }

  function Names(es: Entries): (names: seq<string>)
    ensures |names| == |es|
    ensures forall i :: 0 <= i < |es| ==> names[i] == es[i].name
  {
    seq(|es|, i requires 0 <= i < |es| => es[i].name)
  }

  function Inserted(es: Entries, name: string, value: FieldValue): Result<Entries, FieldError> {
    match ValidateName(name)
    case Some(error) => Err(error)
    case None => if HasName(es, name) then Err(DuplicateName(name)) else Ok(es + [Entry(name, value)])
  }

  function Updated(es: Entries, name: string, value: FieldValue): Result<Entries, FieldError> {
    match ValidateName(name)
    case Some(error) => Err(error)
    case None =>
      var i := Position(es, name);
      if i < |es| then Ok(es[i := Entry(name, value)]) else Ok(es + [Entry(name, value)])
  }

  function CanonicalLine(e: Entry): string {
    e.name + "=" + e.value + "\n"
  }

  function CanonicalText(es: Entries): string {
    if es == [] then "" else CanonicalLine(es[0]) + CanonicalText(es[1..])
  }

  // ---------- The bags ----------

  class PublicInputBag {
    var entries: Entries

    constructor ()
      ensures entries == []
    {
      entries := [];
    }

    method Insert(name: string, value: FieldValue) returns (r: Result<(), FieldError>)
      modifies this
      ensures match Inserted(old(entries), name, value)
              case Ok(es) => r == Ok(()) && entries == es
              case Err(error) => r == Err(error) && entries == old(entries)
    {
      var refused := ValidateName(name);
      if refused.Some? {
        return Err(refused.value);
      }
      if HasName(entries, name) {
        return Err(DuplicateName(name));
      }
      entries := entries + [Entry(name, value)];
      r := Ok(());
    }

    method Set(name: string, value: FieldValue) returns (r: Result<(), FieldError>)
      modifies this
      ensures match Updated(old(entries), name, value)
              case Ok(es) => r == Ok(()) && entries == es
              case Err(error) => r == Err(error) && entries == old(entries)
    {
      var refused := ValidateName(name);
      if refused.Some? {
        return Err(refused.value);
      }
      var i := Position(entries, name);
      if i < |entries| {
        entries := entries[i := Entry(name, value)];
      } else {
        entries := entries + [Entry(name, value)];
      }
      r := Ok(());
    }

    method Get(name: string) returns (v: Option<FieldValue>)
      ensures match v
              case Some(value) =>
                exists i :: 0 <= i < |entries| && entries[i] == Entry(name, value)
                            && forall j :: 0 <= j < i ==> entries[j].name != name
              case None => forall j :: 0 <= j < |entries| ==> entries[j].name != name
    {
      v := Find(entries, name);
    }

    method CanonicalBytes() returns (out: seq<byte>)
      ensures out == Utf8(CanonicalText(entries))
    {
      hide CanonicalLine;
      out := [];
      ghost var text := "";
      for i := 0 to |entries|
        invariant text + CanonicalText(entries[i..]) == CanonicalText(entries)
        invariant out == Utf8(text)
      {
        var e := entries[i];
        out := out + Utf8(e.name);
        out := out + ['=' as int];
        out := out + Utf8(e.value);
        out := out + ['\n' as int];
        CanonicalLineBytes(text, e);
        assert entries[i..][1..] == entries[i + 1..];
        text := text + CanonicalLine(e);
      }
      assert entries[|entries|..] == [] && text + "" == text;
    }
  }

  /** Private values: inserted and read back by name, never replaced. */
  class PrivateWitnessBag {
    var entries: Entries

    constructor ()
      ensures entries == []
    {
      entries := [];
    }

    method Insert(name: string, value: FieldValue) returns (r: Result<(), FieldError>)
      modifies this
      ensures match Inserted(old(entries), name, value)
              case Ok(es) => r == Ok(()) && entries == es
              case Err(error) => r == Err(error) && entries == old(entries)
    {
      var refused := ValidateName(name);
      if refused.Some? {
        return Err(refused.value);
      }
      if HasName(entries, name) {
        return Err(DuplicateName(name));
      }
      entries := entries + [Entry(name, value)];
      r := Ok(());
    }
  }

  lemma CanonicalLineBytes(text: string, e: Entry)
    ensures Utf8(text + CanonicalLine(e))
         == Utf8(text) + Utf8(e.name) + ['=' as int] + Utf8(e.value) + ['\n' as int]
  {
    var upToName := text + e.name;
    var upToSign := upToName + "=";
    var upToValue := upToSign + e.value;
    assert text + CanonicalLine(e) == upToValue + "\n";
    Utf8Append(upToValue, "\n");
    Utf8Append(upToSign, e.value);
    Utf8Append(upToName, "=");
    Utf8Append(text, e.name);
    Utf8Single('=');
    Utf8Single('\n');
  }

  lemma Utf8Single(c: char)
    ensures Utf8([c]) == EncodeChar(c)
  {
    assert Utf8([c]) == EncodeChar(c) + Utf8([c][1..]);
  }

  lemma FindIffPresent(es: Entries, name: string)
    ensures HasName(es, name) <==> Find(es, name).Some?
  {
  }

  // ---------- Runs of insert and set ----------

  datatype BagOp = InsertOp(name: string, value: FieldValue) | SetOp(name: string, value: FieldValue)

  /** One call; a refused call leaves the bag as it was. */
  function Apply(es: Entries, op: BagOp): Entries {
    var r := match op
             case InsertOp(name, value) => Inserted(es, name, value)
             case SetOp(name, value) => Updated(es, name, value);
    if r.Ok? then r.value else es
  }

  function Run(ops: seq<BagOp>): Entries {
    if ops == [] then [] else Apply(Run(ops[..|ops| - 1]), ops[|ops| - 1])
  }

  /** The same calls on a plain map from names to values. */
  function RunOnMap(ops: seq<BagOp>): map<string, FieldValue> {
    if ops == [] then map[] else
      var m := RunOnMap(ops[..|ops| - 1]);
      match ops[|ops| - 1]
      case InsertOp(name, value) => if ValidName(name) && name !in m then m[name := value] else m
      case SetOp(name, value) => if ValidName(name) then m[name := value] else m
  }

  predicate Represents(es: Entries, m: map<string, FieldValue>) {
    && (forall i :: 0 <= i < |es| ==> es[i].name in m && m[es[i].name] == es[i].value)
    && (forall name :: name in m ==> HasName(es, name))
  }

  lemma RepresentsFind(es: Entries, m: map<string, FieldValue>, name: string)
    requires Represents(es, m)
    ensures Find(es, name) == if name in m then Some(m[name]) else None
  {
    FindIffPresent(es, name);
  }

  lemma {:induction false} RunRepresents(ops: seq<BagOp>)
    ensures ValidEntries(Run(ops)) && Represents(Run(ops), RunOnMap(ops))
  {
    if ops != [] {
      var n := |ops| - 1;
      RunRepresents(ops[..n]);
      ApplyRepresents(Run(ops[..n]), RunOnMap(ops[..n]), ops[n]);
    }
  }

  lemma ApplyRepresents(es: Entries, m: map<string, FieldValue>, op: BagOp)
    requires ValidEntries(es) && Represents(es, m)
    ensures ValidEntries(Apply(es, op))
    ensures Represents(Apply(es, op),
                       if !ValidName(op.name) || (op.InsertOp? && op.name in m) then m
                       else m[op.name := op.value])
  {
    if ValidName(op.name) {
      FindIffPresent(es, op.name);
      if Position(es, op.name) == |es| {
        AppendRepresents(es, m, op.name, op.value);
      } else if op.SetOp? {
        ReplaceRepresents(es, m, Position(es, op.name), op.value);
      }
    }
  }

  lemma AppendRepresents(es: Entries, m: map<string, FieldValue>, name: string, value: FieldValue)
    requires ValidEntries(es) && Represents(es, m) && ValidName(name) && !HasName(es, name)
    ensures ValidEntries(es + [Entry(name, value)])
    ensures Represents(es + [Entry(name, value)], m[name := value])
  {
    var after, m' := es + [Entry(name, value)], m[name := value];
    assert after[|es|].name == name;
    forall n | n in m' ensures HasName(after, n) {
      if n != name {
        var k :| 0 <= k < |es| && es[k].name == n;
        assert after[k].name == n;
      }
    }
  }

  lemma ReplaceRepresents(es: Entries, m: map<string, FieldValue>, i: nat, value: FieldValue)
    requires ValidEntries(es) && Represents(es, m) && i < |es|
    ensures ValidEntries(es[i := Entry(es[i].name, value)])
    ensures Represents(es[i := Entry(es[i].name, value)], m[es[i].name := value])
  {
    var after, m' := es[i := Entry(es[i].name, value)], m[es[i].name := value];
    assert forall k :: 0 <= k < |es| ==> after[k].name == es[k].name;
    forall n | n in m' ensures HasName(after, n) {
      var k :| 0 <= k < |es| && es[k].name == n;
      assert after[k].name == n;
    }
  }

  /** After any run of calls, lookups answer as the plain map would. */
  lemma RunRefinesMap(ops: seq<BagOp>, name: string)
    ensures Find(Run(ops), name) == if name in RunOnMap(ops) then Some(RunOnMap(ops)[name]) else None
  {
    RunRepresents(ops);
    RepresentsFind(Run(ops), RunOnMap(ops), name);
  }

  function Inserts(es: Entries): (ops: seq<BagOp>)
    ensures |ops| == |es|
  {
    seq(|es|, i requires 0 <= i < |es| => InsertOp(es[i].name, es[i].value))
  }

  /** The bags that runs can build are exactly the valid entry lists. */
  lemma ReachableIffValid(es: Entries)
    ensures ValidEntries(es) <==> exists ops :: Run(ops) == es
  {
    if ValidEntries(es) {
      InsertsRebuild(es);
    }
    if exists ops :: Run(ops) == es {
      var ops :| Run(ops) == es;
      RunRepresents(ops);
    }
  }

  lemma {:induction false} InsertsRebuild(es: Entries)
    requires ValidEntries(es)
    ensures Run(Inserts(es)) == es
  {
    if es != [] {
      var n := |es| - 1;
      InsertsRebuild(es[..n]);
      assert Inserts(es)[..n] == Inserts(es[..n]);
      assert !HasName(es[..n], es[n].name);
      assert es == es[..n] + [Entry(es[n].name, es[n].value)];
    }
  }

  // ---------- The canonical bytes determine the entries ----------

  lemma NameHasNoSeparators(name: string)
    requires ValidName(name)
    ensures !Contains(name, '=') && !Contains(name, '\n')
    ensures forall i :: 0 <= i < |name| ==> IsAscii(name[i])
  {
    NameTextChars(name);
    assert forall i :: 0 <= i < |name| ==> IsNameChar(name[i]);
  }

  lemma {:induction false} CanonicalTextInjective(a: Entries, b: Entries)
    requires forall i :: 0 <= i < |a| ==> ValidName(a[i].name)
    requires forall i :: 0 <= i < |b| ==> ValidName(b[i].name)
    requires CanonicalText(a) == CanonicalText(b)
    ensures a == b
    decreases |a|
  {
    hide ValidName;
    if a != [] && b != [] {
      var ra, rb := CanonicalText(a[1..]), CanonicalText(b[1..]);
      NameHasNoSeparators(a[0].name);
      NameHasNoSeparators(b[0].name);
      var va: string, vb: string := a[0].value, b[0].value;
      assert CanonicalText(a) == a[0].name + ['='] + (va + ['\n'] + ra);
      assert CanonicalText(b) == b[0].name + ['='] + (vb + ['\n'] + rb);
      hide CanonicalText;
      FirstSeparatorUnique(a[0].name, va + ['\n'] + ra, b[0].name, vb + ['\n'] + rb, '=');
      FirstSeparatorUnique(va, ra, vb, rb, '\n');
      CanonicalTextInjective(a[1..], b[1..]);
      assert a == [a[0]] + a[1..] && b == [b[0]] + b[1..];
    }
  }

  lemma {:induction false} CanonicalTextAscii(es: Entries)
    requires forall i :: 0 <= i < |es| ==> ValidName(es[i].name)
    ensures forall i :: 0 <= i < |CanonicalText(es)| ==> IsAscii(CanonicalText(es)[i])
  {
    if es != [] {
      CanonicalTextAscii(es[1..]);
      NameHasNoSeparators(es[0].name);
      HexIsAscii(es[0].value);
    }
  }

  /** For bags built by any two runs, equal canonical bytes mean equal entries, in order. */
  lemma CanonicalBytesInjective(a: seq<BagOp>, b: seq<BagOp>)
    ensures Utf8(CanonicalText(Run(a))) == Utf8(CanonicalText(Run(b))) <==> Run(a) == Run(b)
  {
    RunRepresents(a);
    RunRepresents(b);
    CanonicalTextAscii(Run(a));
    CanonicalTextAscii(Run(b));
    if Utf8(CanonicalText(Run(a))) == Utf8(CanonicalText(Run(b))) {
      Utf8AsciiInjective(CanonicalText(Run(a)), CanonicalText(Run(b)));
      CanonicalTextInjective(Run(a), Run(b));
    }
  }

  // ---------- Names, order and layout ----------

  /** A name is accepted exactly when it is 1 to 64 of these characters, and else for one of two reasons. */
  lemma NameAcceptedIff(name: string)
    ensures ValidateName(name).None? <==>
            && 1 <= |name| <= 64
            && forall i :: 0 <= i < |name| ==> Contains("abcdefghijklmnopqrstuvwxyz0123456789_", name[i])
    ensures ValidateName(name) == Some(InvalidNameLength) <==> name == "" || ByteLen(name) > 64
    ensures ValidateName(name).Some? ==> ValidateName(name).value in {InvalidNameLength, InvalidNameCharacters}
  {
    forall c: char ensures IsNameChar(c) <==> Contains("abcdefghijklmnopqrstuvwxyz0123456789_", c) {
      NameCharsAre(c);
    }
    NameTextChars(name);
    if forall i :: 0 <= i < |name| ==> IsNameChar(name[i]) {
      AsciiByteLen(name);
    }
    hide IsNameChar, Contains;
  }

  lemma NameCharsAre(c: char)
    ensures IsNameChar(c) <==> Contains("abcdefghijklmnopqrstuvwxyz0123456789_", c)
  {
    var all := "abcdefghijklmnopqrstuvwxyz0123456789_";
    if IsLower(c) {
      assert all[c as int - 'a' as int] == c;
    } else if IsDigit(c) {
      assert all[c as int - '0' as int + 26] == c;
    } else if c == '_' {
      assert all[36] == c;
    }
  }

  lemma FirstPlace(es: Entries, name: string, i: nat)
    requires i < |es| && es[i].name == name && forall j :: 0 <= j < i ==> es[j].name != name
    ensures Position(es, name) == i
  {
  }

  /** Inserting appends; setting keeps every place it finds and otherwise appends. Nothing else changes. */
  lemma OrderIsKept(es: Entries, name: string, value: FieldValue)
    ensures Inserted(es, name, value).Ok? ==> Inserted(es, name, value).value == es + [Entry(name, value)]
    ensures Updated(es, name, value).Ok? ==>
              var updated := Updated(es, name, value).value;
              && Names(updated) == (if HasName(es, name) then Names(es) else Names(es) + [name])
              && (forall i :: 0 <= i < |es| && es[i].name != name ==> updated[i] == es[i])
              && Find(updated, name) == Some(value)
    ensures Inserted(es, name, value).Err? <==> ValidateName(name).Some? || HasName(es, name)
    ensures Updated(es, name, value).Err? <==> ValidateName(name).Some?
    ensures ValidateName(name).None? && HasName(es, name) ==> Inserted(es, name, value) == Err(DuplicateName(name))
    ensures ValidateName(name).Some? ==>
              Inserted(es, name, value) == Err(ValidateName(name).value) == Updated(es, name, value)
  {
    hide ValidateName;
    FindIffPresent(es, name);
    var i := Position(es, name);
    if Updated(es, name, value).Ok? {
      var updated := Updated(es, name, value).value;
      if i < |es| {
        assert Names(updated) == Names(es);
        FirstPlace(updated, name, i);
      } else {
        assert Names(updated) == Names(es) + [name];
        FirstPlace(updated, name, |es|);
      }
    }
  }

  /** The canonical text is one `name=value` line an entry, each ended by a line feed. */
  lemma {:induction false} CanonicalTextLines(es: Entries, i: nat)
    requires i < |es| && forall k :: 0 <= k < |es| ==> ValidName(es[k].name)
    ensures |Lines(CanonicalText(es))| == |es| && Lines(CanonicalText(es))[i] == es[i].name + "=" + es[i].value
    ensures CanonicalText(es)[|CanonicalText(es)| - 1] == '\n'
    decreases |es|
  {
    hide ValidName;
    var line, rest := es[0].name + "=" + es[0].value, CanonicalText(es[1..]);
    LineHasNoBreak(es[0]);
    assert CanonicalText(es) == line + "\n" + rest;
    LinesCons(line, rest);
    if |es| > 1 {
      CanonicalTextLines(es[1..], if i > 0 then i - 1 else 0);
    } else {
      assert Lines("") == [];
    }
  }

  lemma LineHasNoBreak(e: Entry)
    requires ValidName(e.name)
    ensures var line := e.name + "=" + e.value; !Contains(line, '\n') && StripCr(line) == line
  {
    NameHasNoSeparators(e.name);
    var line := e.name + "=" + e.value;
    forall k | 0 <= k < |line| ensures line[k] != '\n' {
      if k < |e.name| {
        assert line[k] == e.name[k];
      } else if k > |e.name| {
        assert line[k] == e.value[k - |e.name| - 1] && IsLowerHex(line[k]);
      }
    }
    assert line[|line| - 1] == e.value[|e.value| - 1] && IsLowerHex(line[|line| - 1]);
  }
}
