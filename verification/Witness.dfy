/**
 Witness assembly and its `Prover.toml` text: public then private entries are printed as
 `name = "0x…"` lines, and a tolerant line parser reads such text back.
 */
module Witness {
  import opened Outcomes
  import opened Text
  import opened Hex
  import opened FieldValues
  import opened Bags
  import opened Circuits

  datatype WitnessSide = Public | Private

  datatype WitnessError =
    | Encoding
    | InvalidValue(field: FieldError)
    | MissingRequired(operation: Operation, side: WitnessSide, name: string)
    | Overlap(name: string)

  datatype WitnessData = WitnessData(operation: Operation, public: Entries, private: Entries)

  // ---------- Printing ----------

  /** One printed entry without its line end. */
  function TomlLine(e: Entry): string {
    e.name + " = \"0x" + e.value + "\""
  }

  function TomlText(es: Entries): string {
    if es == [] then "" else TomlLine(es[0]) + "\n" + TomlText(es[1..])
  }

  /** Values are looked up by name, so distinct private names are what makes each line its own. */
  method EncodeToml(data: WitnessData) returns (out: string)
    requires ValidEntries(data.public) && ValidEntries(data.private)
    ensures out == TomlText(data.public + data.private)
  {
    hide PrintedUpTo;
    out := "";
    var public, private := data.public, data.private;
    ghost var all := public + private;
    PrintedEnds("", all);
    for i := 0 to |public|
      invariant PrintedUpTo(out, all, i)
    {
      PrintedStep(out, all, i);
      out := out + (TomlLine(public[i]) + "\n");
    }
    for i := 0 to |private|
      invariant PrintedUpTo(out, all, |public| + i)
    {
      var name := private[i].name;
      FindAt(private, i);
      PrintedStep(out, all, |public| + i);
      out := out + (TomlLine(Entry(name, Find(private, name).value)) + "\n");
    }
    PrintedEnds(out, all);
  }

  /** The first `i` entries have been printed. */
  ghost predicate PrintedUpTo(out: string, es: Entries, i: nat) {
    i <= |es| && out + TomlText(es[i..]) == TomlText(es)
  }

  lemma PrintedEnds(out: string, es: Entries)
    ensures PrintedUpTo("", es, 0)
    ensures PrintedUpTo(out, es, |es|) <==> out == TomlText(es)
  {
    assert es[0..] == es && "" + TomlText(es) == TomlText(es);
    assert es[|es|..] == [] && out + "" == out;
  }

  lemma PrintedStep(out: string, es: Entries, i: nat)
    requires i < |es| && PrintedUpTo(out, es, i)
    ensures PrintedUpTo(out + (TomlLine(es[i]) + "\n"), es, i + 1)
  {
    var line := TomlLine(es[i]) + "\n";
    assert es[i..][0] == es[i] && es[i..][1..] == es[i + 1..];
    assert out + (line + TomlText(es[i + 1..])) == (out + line) + TomlText(es[i + 1..]);
  }

  lemma FindAt(es: Entries, i: nat)
    requires Distinct(es) && i < |es|
    ensures Find(es, es[i].name) == Some(es[i].value)
  {
    var p := Position(es, es[i].name);
  }

  // ---------- Parsing ----------

  function Unquote(raw: string): Option<string> {
    var r :- StripPrefix(raw, "\"");
    StripSuffix(r, "\"")
  }

  /** Blank lines, comments and lines without `=` carry nothing. */
  predicate Skipped(line: string) {
    var t := Trim(line);
    t == "" || t[0] == '#' || SplitOnce(t, '=').None?
  }

  function Lift<T>(r: Result<T, FieldError>): Result<T, WitnessError> {
    match r
    case Ok(value) => Ok(value)
    case Err(error) => Err(InvalidValue(error))
  }

  function DecodeLine(line: string, bag: Entries): Result<Entries, WitnessError> {
    if Skipped(line) then Ok(bag)
    else
      var (left, right) := SplitOnce(Trim(line), '=').value;
      match Unquote(Trim(right))
      case None => Err(Encoding)
      case Some(hex) =>
        var value :- Lift(FromHex(hex));
        Lift(Inserted(bag, Trim(left), value))
  }

  function DecodeLines(lines: seq<string>, bag: Entries): Result<Entries, WitnessError>
    decreases |lines|
  {
    if lines == [] then Ok(bag)
    else
      var next :- DecodeLine(lines[0], bag);
      DecodeLines(lines[1..], next)
  }

  function Decode(text: string): Result<Entries, WitnessError> {
    DecodeLines(Lines(text), [])
  }

  method DecodePublicOutputs(text: string) returns (r: Result<PublicInputBag, WitnessError>)
    ensures match Decode(text)
            case Ok(es) => r.Ok? && fresh(r.value) && r.value.entries == es
            case Err(error) => r == Err(error)
  {
    var bag := new PublicInputBag();
    var lines := Lines(text);
    for i := 0 to |lines|
      invariant fresh(bag)
      invariant DecodeLines(lines[i..], bag.entries) == DecodeLines(lines, [])
    {
      assert lines[i..][0] == lines[i] && lines[i..][1..] == lines[i + 1..];
      var line := Trim(lines[i]);
      if line == "" || line[0] == '#' {
        continue;
      }
      var split := SplitOnce(line, '=');
      if split.None? {
        continue;
      }
      var name := Trim(split.value.0);
      var hex := Unquote(Trim(split.value.1));
      if hex.None? {
        return Err(Encoding);
      }
      var value := FromHex(hex.value);
      if value.Err? {
        return Err(InvalidValue(value.error));
      }
      var inserted := bag.Insert(name, value.value);
      if inserted.Err? {
        return Err(InvalidValue(inserted.error));
      }
    }
    r := Ok(bag);
  }

  // ---------- Parsing inverts printing ----------

  /** Adding entries one by one to a bag, stopping at the first refusal. */
  function AddAll(bag: Entries, es: Entries): Result<Entries, FieldError>
    decreases |es|
  {
    if es == [] then Ok(bag)
    else
      var next :- Inserted(bag, es[0].name, es[0].value);
      AddAll(next, es[1..])
  }

  function TomlLines(es: Entries): (lines: seq<string>)
    ensures |lines| == |es|
  {
    if es == [] then [] else [TomlLine(es[0])] + TomlLines(es[1..])
  }

  /** The ends of a printed line are a name character and a quote. */
  lemma TomlLineShape(e: Entry)
    requires ValidName(e.name)
    ensures var line := TomlLine(e);
            && line != "" && IsNameChar(line[0]) && line[|line| - 1] == '"'
            && !Contains(line, '\n')
  {
    NameTextChars(e.name);
    var line := TomlLine(e);
    assert line[0] == e.name[0];
    forall i | 0 <= i < |line| ensures line[i] != '\n' {
      if i < |e.name| {
        assert line[i] == e.name[i] && IsNameChar(e.name[i]);
      } else if |e.name| + 6 <= i < |line| - 1 {
        assert line[i] == e.value[i - |e.name| - 6] && IsLowerHex(line[i]);
      }
    }
  }

  lemma TomlLineSplits(e: Entry)
    requires ValidName(e.name)
    ensures SplitOnce(TomlLine(e), '=') == Some((e.name + " ", " \"0x" + e.value + "\""))
  {
    NameHasNoSeparators(e.name);
    var left, right := e.name + " ", " \"0x" + e.value + "\"";
    assert TomlLine(e) == left + ['='] + right;
    assert !Contains(left, '=');
    SplitOnceAt(left, '=', right);
  }

  lemma TomlPartsTrim(e: Entry)
    requires ValidName(e.name)
    ensures Trim(e.name + " ") == e.name
    ensures Trim(" \"0x" + e.value + "\"") == "\"0x" + e.value + "\""
  {
    NameTextChars(e.name);
    TrimOneBlank(e.name);
    var quoted := "\"0x" + e.value + "\"";
    TrimOneBlank(quoted);
    assert " \"0x" + e.value + "\"" == " " + quoted;
  }

  lemma UnquotePrinted(v: FieldValue)
    ensures Unquote("\"0x" + v + "\"") == Some("0x" + v)
  {
    var quoted, inner := "\"0x" + v + "\"", "0x" + v;
    assert quoted == "\"" + inner + "\"";
    assert quoted[1..] == inner + "\"";
    assert (inner + "\"")[..|inner|] == inner && (inner + "\"")[|inner|..] == "\"";
  }

  lemma DecodePrintedLine(e: Entry, bag: Entries)
    requires ValidName(e.name)
    ensures DecodeLine(TomlLine(e), bag) == Lift(Inserted(bag, e.name, e.value))
  {
    TomlLineShape(e);
    TrimFixed(TomlLine(e));
    TomlLineSplits(e);
    TomlPartsTrim(e);
    UnquotePrinted(e.value);
    Idempotent(e.value);
  }

  lemma {:induction false} PrintedLines(es: Entries)
    requires forall i :: 0 <= i < |es| ==> ValidName(es[i].name)
    ensures Lines(TomlText(es)) == TomlLines(es)
  {
    if es != [] {
      TomlLineShape(es[0]);
      LinesCons(TomlLine(es[0]), TomlText(es[1..]));
      PrintedLines(es[1..]);
    }
  }

  lemma {:induction false} DecodePrintedLines(es: Entries, bag: Entries)
    requires forall i :: 0 <= i < |es| ==> ValidName(es[i].name)
    ensures DecodeLines(TomlLines(es), bag) == Lift(AddAll(bag, es))
    decreases |es|
  {
    if es != [] {
      DecodePrintedLine(es[0], bag);
      assert TomlLines(es)[1..] == TomlLines(es[1..]);
      var next := Inserted(bag, es[0].name, es[0].value);
      if next.Ok? {
        DecodePrintedLines(es[1..], next.value);
      }
    }
  }

  /** The first entry of `es` whose name is already taken, or the length when none is. */
  function FirstTaken(bag: Entries, es: Entries): (i: nat)
    ensures i <= |es|
    ensures forall j :: 0 <= j < i ==> !HasName(bag, es[j].name)
    ensures i < |es| ==> HasName(bag, es[i].name)
  {
    if es == [] || HasName(bag, es[0].name) then 0 else 1 + FirstTaken(bag, es[1..])
  }

  lemma {:induction false} AddAllOutcome(bag: Entries, es: Entries)
    requires ValidEntries(es)
    ensures var i := FirstTaken(bag, es);
            AddAll(bag, es) == if i == |es| then Ok(bag + es) else Err(DuplicateName(es[i].name))
    decreases |es|
  {
    if es == [] {
      assert bag + es == bag;
    } else if !HasName(bag, es[0].name) {
      var next := bag + [Entry(es[0].name, es[0].value)];
      assert next == bag + [es[0]];
      AddAllOutcome(next, es[1..]);
      FreshNameKeepsFirstTaken(bag, es[0], es[1..]);
      assert next + es[1..] == bag + es;
    }
  }

  lemma {:induction false} FreshNameKeepsFirstTaken(bag: Entries, e: Entry, es: Entries)
    requires forall i :: 0 <= i < |es| ==> es[i].name != e.name
    ensures FirstTaken(bag + [e], es) == FirstTaken(bag, es)
    decreases |es|
  {
    if es != [] {
      var bigger := bag + [e];
      if HasName(bag, es[0].name) {
        var k :| 0 <= k < |bag| && bag[k].name == es[0].name;
        assert bigger[k].name == es[0].name;
      }
      FreshNameKeepsFirstTaken(bag, e, es[1..]);
    }
  }

  lemma AddAllFresh(es: Entries)
    requires ValidEntries(es)
    ensures AddAll([], es) == Ok(es)
  {
    AddAllOutcome([], es);
    assert [] + es == es;
  }

  lemma {:induction false} AddAllSplits(bag: Entries, a: Entries, b: Entries)
    ensures AddAll(bag, a + b) == match AddAll(bag, a) case Ok(mid) => AddAll(mid, b) case Err(e) => Err(e)
    decreases |a|
  {
    if a == [] {
      assert a + b == b;
    } else {
      assert (a + b)[0] == a[0] && (a + b)[1..] == a[1..] + b;
      var next := Inserted(bag, a[0].name, a[0].value);
      if next.Ok? {
        AddAllSplits(next.value, a[1..], b);
      }
    }
  }

  /**
   Decoding an encoded witness returns the public then the private entries, in order, exactly
   when the two sides share no name; otherwise it names the first private entry that clashes.
   */
  lemma EncodeDecodeRoundTrip(data: WitnessData)
    requires ValidEntries(data.public) && ValidEntries(data.private)
    ensures var i := FirstTaken(data.public, data.private);
            Decode(TomlText(data.public + data.private)) ==
            if i == |data.private| then Ok(data.public + data.private)
            else Err(InvalidValue(DuplicateName(data.private[i].name)))
  {
    var es := data.public + data.private;
    forall i | 0 <= i < |es| ensures ValidName(es[i].name) {
      if i >= |data.public| { assert es[i] == data.private[i - |data.public|]; }
    }
    PrintedLines(es);
    DecodePrintedLines(es, []);
    AddAllSplits([], data.public, data.private);
    AddAllFresh(data.public);
    AddAllOutcome(data.public, data.private);
  }

  /** Nothing makes the decoder skip a private name: of disjoint sides every private value is returned. */
  lemma PrivateValuesAreReturned(data: WitnessData, i: nat)
    requires ValidEntries(data.public) && ValidEntries(data.private) && Disjoint(data.public, data.private)
    requires i < |data.private|
    ensures var r := Decode(TomlText(data.public + data.private));
            r.Ok? && Find(r.value, data.private[i].name) == Some(data.private[i].value)
  {
    hide Decode, TomlText, ValidName;
    var es := data.public + data.private;
    DisjointIffNoneTaken(data.public, data.private);
    EncodeDecodeRoundTrip(data);
    var k := |data.public| + i;
    assert es[k] == data.private[i];
    assert forall j :: 0 <= j < |data.public| ==> es[j].name == data.public[j].name != es[k].name;
    assert forall j :: |data.public| <= j < k ==> es[j] == data.private[j - |data.public|];
    assert Position(es, es[k].name) == k;
  }

  /** Lines that carry nothing can stand anywhere without changing what is read. */
  lemma {:induction false} NoiseIsIgnored(before: seq<string>, noise: string, after: seq<string>, bag: Entries)
    requires Skipped(noise)
    ensures DecodeLines(before + [noise] + after, bag) == DecodeLines(before + after, bag)
    decreases |before|
  {
    var noisy := before + [noise] + after;
    if before == [] {
      assert noisy == [noise] + after;
      assert before + after == after;
    } else {
      assert noisy[1..] == before[1..] + [noise] + after;
      assert (before + after)[1..] == before[1..] + after;
      var next := DecodeLine(before[0], bag);
      if next.Ok? {
        NoiseIsIgnored(before[1..], noise, after, next.value);
      }
    }
  }

  /** A line that is not skipped always matters: reading it fails or adds an entry. */
  lemma ReadLineMatters(line: string, bag: Entries)
    requires !Skipped(line)
    ensures DecodeLine(line, bag) != Ok(bag)
  {
    var (left, right) := SplitOnce(Trim(line), '=').value;
    var hex := Unquote(Trim(right));
    if hex.Some? && FromHex(hex.value).Ok? {
      var added := Inserted(bag, Trim(left), FromHex(hex.value).value);
      assert added.Ok? ==> |added.value| == |bag| + 1;
    }
  }

  lemma SkippedCr(line: string)
    ensures Skipped(StripCr(line)) <==> Skipped(line)
  {
    if StripCr(line) != line {
      TrimCr(StripCr(line));
      assert StripCr(line) + "\r" == line;
    }
  }

  /** Putting `line` between `before` and `after` leaves what is read as it was. */
  predicate Immaterial(line: string, before: string, after: string) {
    Decode(before + (line + "\n" + after)) == Decode(before + after)
  }

  lemma ReadLineShows(line: string)
    requires !Contains(line, '\n') && !Skipped(line)
    ensures !Immaterial(line, "", "")
  {
    hide DecodeLine, Skipped;
    var only := StripCr(line);
    SkippedCr(line);
    LinesCons(line, "");
    assert "" + (line + "\n" + "") == line + "\n" + "" && "" + "" == "";
    assert Lines(line + "\n" + "") == [only];
    ReadLineMatters(only, []);
    DecodeOneLine(only);
    assert Decode("") == Ok([]);
  }

  /**
   The lines that can be put anywhere in any text without changing what is read are exactly the
   skipped ones: blank lines, comments and lines without `=`.
   */
  lemma IgnoredIffSkipped(line: string)
    requires !Contains(line, '\n')
    ensures Skipped(line) <==> forall before, after :: EndsLine(before) ==> Immaterial(line, before, after)
  {
    SkippedCr(line);
    if Skipped(line) {
      forall before, after | EndsLine(before) ensures Immaterial(line, before, after) {
        LinesAppend(before, line + "\n" + after);
        LinesAppend(before, after);
        LinesCons(line, after);
        Associate(Lines(before), [StripCr(line)], Lines(after));
        NoiseIsIgnored(Lines(before), StripCr(line), Lines(after), []);
      }
    } else {
      ReadLineShows(line);
      assert EndsLine("");
    }
  }

  lemma DecodeOneLine(line: string)
    ensures DecodeLines([line], []) == DecodeLine(line, [])
  {
    hide DecodeLine;
    assert [line][0] == line && [line][1..] == [];
    if DecodeLine(line, []).Ok? {
      assert DecodeLines([], DecodeLine(line, []).value) == DecodeLine(line, []);
    }
  }

  lemma UnquotedLineShape(name: string, raw: string)
    requires ValidName(name) && raw != "" && !Contains(raw, '\n')
    requires !IsWhitespace(raw[0]) && !IsWhitespace(raw[|raw| - 1])
    ensures var line := name + " = " + raw;
            && Trim(line) == line && line != "" && line[0] != '#' && !Contains(line, '\n')
            && SplitOnce(line, '=') == Some((name + " ", " " + raw))
            && Trim(" " + raw) == raw
  {
    var line := name + " = " + raw;
    NameTextChars(name);
    NameHasNoSeparators(name);
    assert IsNameChar(line[0]) && line[|line| - 1] == raw[|raw| - 1];
    forall i | 0 <= i < |line| ensures line[i] != '\n' {
      if i >= |name| + 3 {
        assert line[i] == raw[i - |name| - 3];
      }
    }
    TrimFixed(line);
    TrimOneBlank(raw);
    assert !Contains(name + " ", '=');
    assert line == (name + " ") + ['='] + (" " + raw);
    SplitOnceAt(name + " ", '=', " " + raw);
  }

  /**
   So a line outside the grammar is not always skipped: a name with an unquoted value, as in
   `token = 1`, stops the decoder.
   */
  lemma UnquotedLineFails(name: string, raw: string)
    requires ValidName(name) && raw != "" && !Contains(raw, '\n')
    requires !IsWhitespace(raw[0]) && !IsWhitespace(raw[|raw| - 1])
    ensures var line := name + " = " + raw;
            !Skipped(line) && (Decode(line) == Err(Encoding) <==> Unquote(raw) == None)
  {
    hide Trim, SplitOnce, Unquote, ValidName, IsWhitespace;
    var line := name + " = " + raw;
    UnquotedLineShape(name, raw);
    IndexOfAbsent(line, '\n');
    assert Lines(line) == [line];
    DecodeOneLine(line);
  }

  /** `token = 1` is such a line. */
  lemma UnquotedExample()
    ensures Decode("token" + " = " + "1") == Err(Encoding)
  {
    PlainName("token");
    assert Unquote("1") == None;
    UnquotedLineFails("token", "1");
  }

  /** Lines are read one after the other into one bag, and the first that fails ends it all. */
  lemma {:induction false} DecodeLinesAppend(a: seq<string>, b: seq<string>, bag: Entries)
    ensures DecodeLines(a + b, bag) ==
            match DecodeLines(a, bag)
            case Ok(mid) => DecodeLines(b, mid)
            case Err(error) => Err(error)
    decreases |a|
  {
    hide DecodeLine;
    if a == [] {
      assert a + b == b;
    } else {
      assert (a + b)[0] == a[0] && (a + b)[1..] == a[1..] + b;
      if DecodeLine(a[0], bag).Ok? {
        DecodeLinesAppend(a[1..], b, DecodeLine(a[0], bag).value);
      }
    }
  }

  // ---------- What one line means ----------

  /** The skipped lines: only blanks, or a first other character `#`, or no `=` anywhere. */
  lemma SkippedIff(line: string)
    ensures Skipped(line) <==>
            || AllBlank(line)
            || (exists i :: 0 <= i < |line| && line[i] == '#' && AllBlank(line[..i]))
            || !Contains(line, '=')
  {
    var a, b := TrimParts(line);
    var t := Trim(line);
    assert line == a + t + b;
    SplitOnceNone(t, '=');
    assert Contains(line, '=') <==> Contains(t, '=') by {
      BlanksHideNothing(a, t, b, '=');
    }
    if t == "" {
      assert AllBlank(line);
    } else {
      CommentIff(a, t, b);
    }
  }

  /** The first character that is no blank is the first of the trimmed line. */
  lemma CommentIff(a: string, t: string, b: string)
    requires AllBlank(a) && t != "" && !IsWhitespace(t[0])
    ensures var line := a + t + b;
            && !AllBlank(line)
            && ((exists i :: 0 <= i < |line| && line[i] == '#' && AllBlank(line[..i])) <==> t[0] == '#')
  {
    var line := a + t + b;
    assert line[|a|] == t[0] && line[..|a|] == a;
    assert forall k :: 0 <= k < |a| ==> line[k] == a[k];
    if i :| 0 <= i < |line| && line[i] == '#' && AllBlank(line[..i]) {
      assert forall k :: 0 <= k < i ==> line[..i][k] == line[k];
      assert !IsWhitespace('#');
      assert i == |a|;
    }
  }

  lemma BlanksHideNothing(a: string, t: string, b: string, c: char)
    requires AllBlank(a) && AllBlank(b) && !IsWhitespace(c)
    ensures Contains(a + t + b, c) <==> Contains(t, c)
  {
    var s := a + t + b;
    assert forall k :: 0 <= k < |a| ==> s[k] == a[k];
    assert forall k :: |a| + |t| <= k < |s| ==> s[k] == b[k - |a| - |t|];
    if i :| 0 <= i < |s| && s[i] == c {
      assert t[i - |a|] == c;
    }
    if i :| 0 <= i < |t| && t[i] == c {
      assert s[|a| + i] == c;
    }
  }

  lemma SplitOnceNone(s: string, c: char)
    ensures SplitOnce(s, c).None? <==> !Contains(s, c)
  {
  }

  lemma UnquoteQuoted(text: string)
    ensures Unquote("\"" + text + "\"") == Some(text)
  {
    var quoted := "\"" + text + "\"";
    assert quoted[1..] == text + "\"";
    assert (text + "\"")[..|text|] == text && (text + "\"")[|text|..] == "\"";
  }

  /**
   Any name and quoted text, with any blanks around them: an error when the text is no hex value,
   else what the bag says to the value the text denotes.
   */
  lemma QuotedLineOutcome(b1: string, name: string, b2: string, b3: string, text: string, b4: string, bag: Entries)
    requires AllBlank(b1) && AllBlank(b2) && AllBlank(b3) && AllBlank(b4)
    requires name != "" && CleanEnds(name) && !Contains(name, '=') && name[0] != '#'
    ensures var line := b1 + (name + b2 + "=" + (b3 + ("\"" + text + "\""))) + b4;
            DecodeLine(line, bag) ==
            if Accepted(text) then Lift(Inserted(bag, name, FromHex(text).value)) else Err(InvalidValue(InvalidHex))
  {
    hide Inserted, IsWhitespace, Accepted;
    var quoted := "\"" + text + "\"";
    var inner := name + b2 + "=" + (b3 + quoted);
    QuoteIsNoBlank();
    assert CleanEnds(quoted) && CleanEnds(inner);
    assert inner[0] == name[0];
    TrimBlanks(b1, inner, b4);
    EqualsIsNoBlank(b2);
    assert !Contains(name + b2, '=');
    assert inner == (name + b2) + ['='] + (b3 + quoted);
    SplitOnceAt(name + b2, '=', b3 + quoted);
    TrimAround(name, b2, b3, quoted);
    UnquoteQuoted(text);
    CanonicalisationIsNumeric(text, text);
    FromHexFails(text);
    hide Trim, SplitOnce, Unquote, FromHex;
  }

  lemma QuoteIsNoBlank()
    ensures !IsWhitespace('"')
  {
  }

  lemma EqualsIsNoBlank(b: string)
    requires AllBlank(b)
    ensures !Contains(b, '=')
  {
    assert !IsWhitespace('=');
  }

  lemma TrimAround(name: string, b2: string, b3: string, quoted: string)
    requires AllBlank(b2) && AllBlank(b3) && name != "" && CleanEnds(name) && quoted != "" && CleanEnds(quoted)
    ensures Trim(name + b2) == name && Trim(b3 + quoted) == quoted
  {
    TrimBlanks("", name, b2);
    TrimBlanks(b3, quoted, "");
    assert "" + name + b2 == name + b2 && b3 + quoted + "" == b3 + quoted;
  }

  lemma FromHexFails(text: string)
    ensures !Accepted(text) ==> FromHex(text) == Err(InvalidHex)
  {
  }

  /**
   A valid name with a quoted text decodes exactly when the text is a hex value, to the one entry
   that denotes the same number; otherwise the value is refused.
   */
  lemma QuotedTextDecodes(name: string, text: string)
    requires ValidName(name) && !Contains(text, '\n')
    ensures var r := Decode(name + " = \"" + text + "\"");
            && (r.Ok? <==> Accepted(text))
            && (Accepted(text) ==>
                  && |r.value| == 1 && r.value[0].name == name
                  && Value(r.value[0].value) == HexValue(Strip0x(text)))
            && (!Accepted(text) ==> r == Err(InvalidValue(InvalidHex)))
  {
    hide DecodeLine, Accepted, IsWhitespace;
    var line := name + " = \"" + text + "\"";
    NameIsPlain(name);
    assert IsWhitespace(' ') by {
      BlankSpace();
    }
    assert line == "" + (name + " " + "=" + (" " + ("\"" + text + "\""))) + "";
    QuotedLineOutcome("", name, " ", " ", text, "", []);
    NoLineBreak(name, text);
    IndexOfAbsent(line, '\n');
    assert Lines(line) == [line];
    DecodeOneLine(line);
    if Accepted(text) {
      FromHexValue(text);
      assert Inserted([], name, FromHex(text).value) == Ok([] + [Entry(name, FromHex(text).value)]);
    }
  }

  lemma BlankSpace()
    ensures IsWhitespace(' ')
  {
  }

  lemma NameIsPlain(name: string)
    requires ValidName(name)
    ensures name != "" && CleanEnds(name) && !Contains(name, '=') && !Contains(name, '\n') && name[0] != '#'
  {
    NameTextChars(name);
    NameHasNoSeparators(name);
    assert IsNameChar(name[0]) && IsNameChar(name[|name| - 1]);
  }

  lemma NoLineBreak(name: string, text: string)
    requires !Contains(name, '\n') && !Contains(text, '\n')
    ensures !Contains(name + " = \"" + text + "\"", '\n')
  {
    var line := name + " = \"" + text + "\"";
    forall i | 0 <= i < |line| ensures line[i] != '\n' {
      if i < |name| {
        assert line[i] == name[i];
      } else if |name| + 4 <= i < |line| - 1 {
        assert line[i] == text[i - |name| - 4];
      }
    }
  }

  /** A printed text has one line an entry: the name, ` = `, and the value in quotes behind `0x`. */
  lemma PrintedLineText(es: Entries, i: nat)
    requires i < |es| && forall k :: 0 <= k < |es| ==> ValidName(es[k].name)
    ensures |Lines(TomlText(es))| == |es|
    ensures Lines(TomlText(es))[i] == es[i].name + " = \"0x" + es[i].value + "\""
  {
    PrintedLines(es);
    TomlLineAt(es, i);
  }

  lemma {:induction false} TomlLineAt(es: Entries, i: nat)
    requires i < |es|
    ensures TomlLines(es)[i] == TomlLine(es[i])
  {
    if i > 0 {
      TomlLineAt(es[1..], i - 1);
    }
  }

  // ---------- Assembly ----------

  /** The first required name that the bag lacks. */
  function FirstMissing(required: seq<string>, es: Entries): Option<string> {
    if required == [] then None
    else if !HasName(es, required[0]) then Some(required[0])
    else FirstMissing(required[1..], es)
  }

  /** What assembly decides: required public names, then private ones, then the overlap. */
  function Assembled(data: WitnessData, requiredPublic: seq<string>, requiredPrivate: seq<string>)
    : Result<WitnessData, WitnessError>
  {
    var public := FirstMissing(requiredPublic, data.public);
    var private := FirstMissing(requiredPrivate, data.private);
    var shared := FirstTaken(data.private, data.public);
    if public.Some? then Err(MissingRequired(data.operation, Public, public.value))
    else if private.Some? then Err(MissingRequired(data.operation, Private, private.value))
    else if shared < |data.public| then Err(Overlap(data.public[shared].name))
    else Ok(data)
  }

  class WitnessAssembler {
    var operation: Operation
    var public: Entries
    var private: Entries
    var requiredPublic: seq<string>
    var requiredPrivate: seq<string>

    ghost predicate Valid()
      reads this
    {
      ValidEntries(public) && ValidEntries(private)
    }

    constructor ForOperation(operation: Operation)
      ensures Valid() && this.operation == operation && public == [] && private == []
      ensures requiredPublic == [] && requiredPrivate == []
    {
      this.operation := operation;
      public, private := [], [];
      requiredPublic, requiredPrivate := [], [];
    }

    method WithPublic(name: string, value: FieldValue) returns (r: Result<(), WitnessError>)
      requires Valid()
      modifies this`public
      ensures Valid()
      ensures match Inserted(old(public), name, value)
              case Ok(es) => r == Ok(()) && public == es
              case Err(error) => r == Err(InvalidValue(error)) && public == old(public)
    {
      var inserted := Inserted(public, name, value);
      if inserted.Err? {
        return Err(InvalidValue(inserted.error));
      }
      public := inserted.value;
      r := Ok(());
    }

    method WithPrivate(name: string, value: FieldValue) returns (r: Result<(), WitnessError>)
      requires Valid()
      modifies this`private
      ensures Valid()
      ensures match Inserted(old(private), name, value)
              case Ok(es) => r == Ok(()) && private == es
              case Err(error) => r == Err(InvalidValue(error)) && private == old(private)
    {
      var inserted := Inserted(private, name, value);
      if inserted.Err? {
        return Err(InvalidValue(inserted.error));
      }
      private := inserted.value;
      r := Ok(());
    }

    method RequiresPublic(name: string)
      modifies this`requiredPublic
      ensures requiredPublic == old(requiredPublic) + [name]
    {
      requiredPublic := requiredPublic + [name];
    }

    method RequiresPrivate(name: string)
      modifies this`requiredPrivate
      ensures requiredPrivate == old(requiredPrivate) + [name]
    {
      requiredPrivate := requiredPrivate + [name];
    }

    method Assemble() returns (r: Result<WitnessData, WitnessError>)
      ensures r == Assembled(WitnessData(operation, public, private), requiredPublic, requiredPrivate)
    {
      var data := WitnessData(operation, public, private);
      for i := 0 to |requiredPublic|
        invariant FirstMissing(requiredPublic, public) == FirstMissing(requiredPublic[i..], public)
      {
        if !HasName(public, requiredPublic[i]) {
          return Err(MissingRequired(operation, Public, requiredPublic[i]));
        }
      }
      for i := 0 to |requiredPrivate|
        invariant FirstMissing(requiredPrivate, private) == FirstMissing(requiredPrivate[i..], private)
      {
        if !HasName(private, requiredPrivate[i]) {
          return Err(MissingRequired(operation, Private, requiredPrivate[i]));
        }
      }
      for i := 0 to |public|
        invariant FirstTaken(private, public) == i + FirstTaken(private, public[i..])
      {
        if HasName(private, public[i].name) {
          return Err(Overlap(public[i].name));
        }
      }
      r := Ok(data);
    }
  }

  lemma {:induction false} FirstMissingNone(required: seq<string>, es: Entries)
    ensures FirstMissing(required, es).None? <==> forall i :: 0 <= i < |required| ==> HasName(es, required[i])
  {
    if required != [] {
      FirstMissingNone(required[1..], es);
      assert required == [required[0]] + required[1..];
    }
  }

  predicate Disjoint(a: Entries, b: Entries) {
    forall i, j :: 0 <= i < |a| && 0 <= j < |b| ==> a[i].name != b[j].name
  }

  lemma DisjointIffNoneTaken(a: Entries, b: Entries)
    ensures Disjoint(a, b) <==> FirstTaken(a, b) == |b|
    ensures Disjoint(a, b) <==> FirstTaken(b, a) == |a|
  {
    if FirstTaken(a, b) < |b| {
      var k :| 0 <= k < |a| && a[k].name == b[FirstTaken(a, b)].name;
    }
    if FirstTaken(b, a) < |a| {
      var k :| 0 <= k < |b| && b[k].name == a[FirstTaken(b, a)].name;
    }
  }

  /**
   Assembly succeeds exactly when every required name is present and the sides are disjoint,
   and what it lets through always survives the trip through `Prover.toml`.
   */
  lemma AssembledSurvivesToml(data: WitnessData, requiredPublic: seq<string>, requiredPrivate: seq<string>)
    requires ValidEntries(data.public) && ValidEntries(data.private)
    ensures Assembled(data, requiredPublic, requiredPrivate).Ok? <==>
            && (forall i :: 0 <= i < |requiredPublic| ==> HasName(data.public, requiredPublic[i]))
            && (forall i :: 0 <= i < |requiredPrivate| ==> HasName(data.private, requiredPrivate[i]))
            && Disjoint(data.public, data.private)
    ensures Assembled(data, requiredPublic, requiredPrivate).Ok? ==>
              Decode(TomlText(data.public + data.private)) == Ok(data.public + data.private)
  {
    FirstMissingNone(requiredPublic, data.public);
    FirstMissingNone(requiredPrivate, data.private);
    DisjointIffNoneTaken(data.public, data.private);
    EncodeDecodeRoundTrip(data);
  }

  lemma {:induction false} FirstMissingIs(required: seq<string>, es: Entries, k: nat)
    requires k < |required| && !HasName(es, required[k]) && forall i :: 0 <= i < k ==> HasName(es, required[i])
    ensures FirstMissing(required, es) == Some(required[k])
  {
    if k > 0 {
      assert required[1..][k - 1] == required[k];
      assert forall i :: 0 <= i < k - 1 ==> required[1..][i] == required[i + 1];
      FirstMissingIs(required[1..], es, k - 1);
    }
  }

  /**
   What a failed assembly reports: the first required public name that is missing, else the
   first required private one, else the first public name that is also private.
   */
  lemma AssemblyFault(data: WitnessData, requiredPublic: seq<string>, requiredPrivate: seq<string>, k: nat)
    ensures k < |requiredPublic| && !HasName(data.public, requiredPublic[k])
            && (forall i :: 0 <= i < k ==> HasName(data.public, requiredPublic[i])) ==>
              Assembled(data, requiredPublic, requiredPrivate)
              == Err(MissingRequired(data.operation, Public, requiredPublic[k]))
    ensures (forall i :: 0 <= i < |requiredPublic| ==> HasName(data.public, requiredPublic[i]))
            && k < |requiredPrivate| && !HasName(data.private, requiredPrivate[k])
            && (forall i :: 0 <= i < k ==> HasName(data.private, requiredPrivate[i])) ==>
              Assembled(data, requiredPublic, requiredPrivate)
              == Err(MissingRequired(data.operation, Private, requiredPrivate[k]))
    ensures (forall i :: 0 <= i < |requiredPublic| ==> HasName(data.public, requiredPublic[i]))
            && (forall i :: 0 <= i < |requiredPrivate| ==> HasName(data.private, requiredPrivate[i]))
            && k < |data.public| && HasName(data.private, data.public[k].name)
            && (forall i :: 0 <= i < k ==> !HasName(data.private, data.public[i].name)) ==>
              Assembled(data, requiredPublic, requiredPrivate) == Err(Overlap(data.public[k].name))
  {
    hide HasName;
    FirstMissingNone(requiredPublic, data.public);
    FirstMissingNone(requiredPrivate, data.private);
    if k < |requiredPublic| && !HasName(data.public, requiredPublic[k])
       && (forall i :: 0 <= i < k ==> HasName(data.public, requiredPublic[i])) {
      FirstMissingIs(requiredPublic, data.public, k);
    }
    if k < |requiredPrivate| && !HasName(data.private, requiredPrivate[k])
       && (forall i :: 0 <= i < k ==> HasName(data.private, requiredPrivate[i])) {
      FirstMissingIs(requiredPrivate, data.private, k);
    }
    hide FirstMissing;
    if k < |data.public| && HasName(data.private, data.public[k].name)
       && (forall i :: 0 <= i < k ==> !HasName(data.private, data.public[i].name)) {
      var i := FirstTaken(data.private, data.public);
      assert !(i < k) && !(k < i);
    }
  }
}
