/** The last-resort scrubber: every run of 16 or more hex characters becomes `***`. */
module Scrub {
  import opened Text
  import opened Hex

  const MIN_SCRUB_LEN := 16

  /** How many hex characters the text starts with. */
  function RunLength(s: string): (n: nat)
    ensures n <= |s|
    ensures forall i :: 0 <= i < n ==> IsHexDigit(s[i])
    ensures n < |s| ==> !IsHexDigit(s[n])
  {
    if s == "" || !IsHexDigit(s[0]) then 0 else 1 + RunLength(s[1..])
  }

  function ScrubRun(run: string): string {
    if |run| >= MIN_SCRUB_LEN then "***" else run
  }

  function Scrubbed(s: string): string
    decreases |s|
  {
    if s == "" then ""
    else if IsHexDigit(s[0]) then
      var n := RunLength(s);
      ScrubRun(s[..n]) + Scrubbed(s[n..])
    else [s[0]] + Scrubbed(s[1..])
  }

  method ScrubHex(input: string) returns (out: string)
    ensures out == Scrubbed(input)
  {
    hide ScrubbedUpTo, Scrubbed, IsHexDigit;
    out := "";
    var i := 0;
    UpToEnds(out, input);
    while i < |input|
      invariant 0 <= i <= |input|
      invariant ScrubbedUpTo(out, input, i)
    {
      if IsHexDigit(input[i]) {
        var start := i;
        while i < |input| && IsHexDigit(input[i])
          invariant start <= i <= |input|
          invariant forall k :: start <= k < i ==> IsHexDigit(input[k])
        {
          i := i + 1;
        }
        UpToRun(out, input, start, i);
        if i - start >= MIN_SCRUB_LEN {
          out := out + "***";
        } else {
          out := out + input[start..i];
        }
      } else {
        UpToChar(out, input, i);
        out := out + [input[i]];
        i := i + 1;
      }
    }
    UpToEnds(out, input);
  }

  /** The first `i` characters have been dealt with, and no run straddles that point. */
  ghost predicate ScrubbedUpTo(out: string, input: string, i: nat) {
    i <= |input| && out + Scrubbed(input[i..]) == Scrubbed(input)
  }

  lemma UpToEnds(out: string, input: string)
    ensures ScrubbedUpTo("", input, 0)
    ensures ScrubbedUpTo(out, input, |input|) <==> out == Scrubbed(input)
  {
    assert input[0..] == input && "" + Scrubbed(input) == Scrubbed(input);
    assert out + "" == out;
  }

  lemma UpToRun(out: string, input: string, start: nat, end: nat)
    requires start < end <= |input| && ScrubbedUpTo(out, input, start)
    requires forall k :: start <= k < end ==> IsHexDigit(input[k])
    requires end < |input| ==> !IsHexDigit(input[end])
    ensures ScrubbedUpTo(out + ScrubRun(input[start..end]), input, end)
  {
    hide Scrubbed, ScrubRun, IsHexDigit;
    var rest, run := input[start..], input[start..end];
    assert rest[..end - start] == run && rest[end - start..] == input[end..];
    assert Scrubbed(rest) == ScrubRun(run) + Scrubbed(input[end..]) by {
      RunStep(rest, end - start);
    }
    Associate(out, ScrubRun(run), Scrubbed(input[end..]));
  }

  lemma UpToChar(out: string, input: string, i: nat)
    requires i < |input| && !IsHexDigit(input[i]) && ScrubbedUpTo(out, input, i)
    ensures ScrubbedUpTo(out + [input[i]], input, i + 1)
  {
    var rest := input[i..];
    assert rest[0] == input[i] && rest[1..] == input[i + 1..];
    assert out + ([input[i]] + Scrubbed(input[i + 1..])) == (out + [input[i]]) + Scrubbed(input[i + 1..]);
  }

  lemma RunLengthIs(s: string, n: nat)
    requires n <= |s|
    requires forall i :: 0 <= i < n ==> IsHexDigit(s[i])
    requires n < |s| ==> !IsHexDigit(s[n])
    ensures RunLength(s) == n
  {
  }

  /** A maximal leading run is dealt with as a whole. */
  lemma RunStep(s: string, n: nat)
    requires 0 < n <= |s|
    requires forall i :: 0 <= i < n ==> IsHexDigit(s[i])
    requires n < |s| ==> !IsHexDigit(s[n])
    ensures Scrubbed(s) == ScrubRun(s[..n]) + Scrubbed(s[n..])
  {
    RunLengthIs(s, n);
  }

  // ---------- Run by run, character by character ----------

  /** A character that is not a hex digit stays put and separates what is around it. */
  lemma {:induction false} SeparatorStays(before: string, c: char, after: string)
    requires !IsHexDigit(c)
    ensures Scrubbed(before + [c] + after) == Scrubbed(before) + [c] + Scrubbed(after)
    decreases |before|
  {
    var s := before + [c] + after;
    if before == "" {
      assert s[0] == c && s[1..] == after;
      assert "" + [c] + Scrubbed(after) == [c] + Scrubbed(after);
    } else if IsHexDigit(before[0]) {
      var n := RunLength(before);
      var rest := before[n..];
      RunStep(before, n);
      assert s[..n] == before[..n] && s[n..] == rest + [c] + after;
      RunStep(s, n);
      SeparatorStays(rest, c, after);
      Regroup(ScrubRun(before[..n]), Scrubbed(rest), [c], Scrubbed(after));
    } else {
      var rest := before[1..];
      assert s[0] == before[0] && s[1..] == rest + [c] + after;
      SeparatorStays(rest, c, after);
      Regroup([before[0]], Scrubbed(rest), [c], Scrubbed(after));
    }
  }

  lemma Regroup(a: string, b: string, c: string, d: string)
    ensures a + (b + c + d) == a + b + c + d
  {
  }

  /** A text that is one run is replaced when long and kept when short. */
  lemma WholeRun(run: string)
    requires AllHex(run)
    ensures Scrubbed(run) == ScrubRun(run)
  {
    if run != "" {
      RunStep(run, |run|);
      assert run[..|run|] == run && run[|run|..] == "";
    }
  }

  ghost predicate KeepsSeparators(f: string -> string) {
    forall before, c, after :: !IsHexDigit(c) ==>
      f(before + [c] + after) == f(before) + [c] + f(after)
  }

  ghost predicate ScrubsRuns(f: string -> string) {
    forall run :: AllHex(run) ==> f(run) == ScrubRun(run)
  }

  /** Those two laws say everything: only the scrubber obeys both. */
  lemma {:induction false} ScrubbingIsDetermined(f: string -> string, s: string)
    requires KeepsSeparators(f) && ScrubsRuns(f)
    ensures f(s) == Scrubbed(s)
    decreases |s|
  {
    var n := RunLength(s);
    WholeRun(s[..n]);
    if n == |s| {
      assert s[..n] == s;
    } else {
      assert s == s[..n] + [s[n]] + s[n + 1..];
      SeparatorStays(s[..n], s[n], s[n + 1..]);
      ScrubbingIsDetermined(f, s[n + 1..]);
    }
  }

  lemma ScrubbedObeysTheLaws()
    ensures KeepsSeparators(Scrubbed) && ScrubsRuns(Scrubbed)
  {
    forall before, c: char, after | !IsHexDigit(c)
      ensures Scrubbed(before + [c] + after) == Scrubbed(before) + [c] + Scrubbed(after)
    {
      SeparatorStays(before, c, after);
    }
    forall run | AllHex(run) ensures Scrubbed(run) == ScrubRun(run) {
      WholeRun(run);
    }
  }

  // ---------- No long run survives ----------

  predicate LongRunAt(s: string, i: nat) {
    i + MIN_SCRUB_LEN <= |s| && AllHex(s[i..i + MIN_SCRUB_LEN])
  }

  ghost predicate NoLongRun(s: string) {
    forall i: nat :: !LongRunAt(s, i)
  }

  lemma SeparatedNoLongRun(a: string, c: char, b: string)
    requires NoLongRun(a) && !IsHexDigit(c) && NoLongRun(b)
    ensures NoLongRun(a + [c] + b)
  {
    var s := a + [c] + b;
    forall i: nat ensures !LongRunAt(s, i) {
      if i + MIN_SCRUB_LEN <= |a| {
        assert !LongRunAt(a, i);
        assert s[i..i + MIN_SCRUB_LEN] == a[i..i + MIN_SCRUB_LEN];
      } else if i <= |a| {
        if i + MIN_SCRUB_LEN <= |s| {
          assert s[i..i + MIN_SCRUB_LEN][|a| - i] == c;
        }
      } else if i + MIN_SCRUB_LEN <= |s| {
        var j := i - |a| - 1;
        assert !LongRunAt(b, j);
        assert s[i..i + MIN_SCRUB_LEN] == b[j..j + MIN_SCRUB_LEN];
      }
    }
  }

  lemma PartsNoLongRun(a: string, c: char, b: string)
    requires NoLongRun(a + [c] + b)
    ensures NoLongRun(a) && NoLongRun(b)
  {
    var s := a + [c] + b;
    forall i: nat ensures !LongRunAt(a, i) {
      assert !LongRunAt(s, i);
      if i + MIN_SCRUB_LEN <= |a| {
        assert s[i..i + MIN_SCRUB_LEN] == a[i..i + MIN_SCRUB_LEN];
      }
    }
    forall i: nat ensures !LongRunAt(b, i) {
      var j := i + |a| + 1;
      assert !LongRunAt(s, j);
      if i + MIN_SCRUB_LEN <= |b| {
        assert s[j..j + MIN_SCRUB_LEN] == b[i..i + MIN_SCRUB_LEN];
      }
    }
  }

  lemma {:induction false} ScrubbedHasNoLongRun(s: string)
    ensures NoLongRun(Scrubbed(s))
    decreases |s|
  {
    var n := RunLength(s);
    WholeRun(s[..n]);
    assert !LongRunAt(ScrubRun(s[..n]), 0);
    if n == |s| {
      assert s[..n] == s;
    } else {
      assert s == s[..n] + [s[n]] + s[n + 1..];
      SeparatorStays(s[..n], s[n], s[n + 1..]);
      ScrubbedHasNoLongRun(s[n + 1..]);
      SeparatedNoLongRun(ScrubRun(s[..n]), s[n], Scrubbed(s[n + 1..]));
    }
  }

  lemma {:induction false} NoLongRunIsKept(s: string)
    requires NoLongRun(s)
    ensures Scrubbed(s) == s
    decreases |s|
  {
    var n := RunLength(s);
    WholeRun(s[..n]);
    assert !LongRunAt(s, 0);
    if n >= MIN_SCRUB_LEN {
      assert LongRunAt(s, 0);
    }
    if n == |s| {
      assert s[..n] == s;
    } else {
      assert s == s[..n] + [s[n]] + s[n + 1..];
      SeparatorStays(s[..n], s[n], s[n + 1..]);
      PartsNoLongRun(s[..n], s[n], s[n + 1..]);
      NoLongRunIsKept(s[n + 1..]);
    }
  }

  /** No long run survives, a text changes only if it holds one, and scrubbing twice is scrubbing once. */
  lemma ScrubHexGuarantees(s: string)
    ensures NoLongRun(Scrubbed(s))
    ensures Scrubbed(s) == s <==> NoLongRun(s)
    ensures Scrubbed(Scrubbed(s)) == Scrubbed(s)
  {
    ScrubbedHasNoLongRun(s);
    NoLongRunIsKept(Scrubbed(s));
    if NoLongRun(s) {
      NoLongRunIsKept(s);
    }
  }

  /** Sixteen is the limit: a run of 15 hex digits stays, and one of 16 becomes three stars. */
  lemma SixteenIsTheLimit(run: string)
    requires AllHex(run)
    ensures |run| <= 15 ==> Scrubbed(run) == run
    ensures |run| >= 16 ==> Scrubbed(run) == "***"
  {
    WholeRun(run);
  }
}
