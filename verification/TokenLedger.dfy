/**
 Value by token. A commitment holds no token, so a step may consume a note under any token; this
 follows which token each live note was made under and says when each token's value is kept.
 */
module TokenLedger {
  import opened Outcomes
  import opened ConfidentialCircuits
  import opened Ledger

  /** A live note and the token of the step that made it. */
  datatype Holding = Holding(token: Field, note: Note)

  function NotesIn(hs: seq<Holding>): (notes: seq<Note>)
    ensures |notes| == |hs|
    ensures forall i :: 0 <= i < |hs| ==> notes[i] == hs[i].note
  {
    seq(|hs|, i requires 0 <= i < |hs| => hs[i].note)
  }

  function Under(token: Field, notes: seq<Note>): (hs: seq<Holding>)
    ensures |hs| == |notes|
    ensures forall i :: 0 <= i < |notes| ==> hs[i] == Holding(token, notes[i])
  {
    seq(|notes|, i requires 0 <= i < |notes| => Holding(token, notes[i]))
  }

  /** What a step makes is held under the step's token. */
  function TrackHoldings(hs: seq<Holding>, step: Step): seq<Holding> {
    if !InPlace(step, |hs|) then hs else Kept(hs, step) + Under(step.token, Produced(step))
  }

  function TrackHoldingsRun(hs: seq<Holding>, steps: seq<Step>): seq<Holding>
    decreases |steps|
  {
    if steps == [] then hs else TrackHoldingsRun(TrackHoldings(hs, steps[0]), steps[1..])
  }

  function AmountUnder(h: Holding, token: Field): nat {
    if h.token == token then h.note.amount else 0
  }

  /** The value held under one token. */
  function Value(hs: seq<Holding>, token: Field): nat {
    if hs == [] then 0 else AmountUnder(hs[0], token) + Value(hs[1..], token)
  }

  function Deposited(steps: seq<Step>, token: Field): nat {
    if steps == [] then 0
    else (if steps[0].DepositStep? && steps[0].token == token then steps[0].amount else 0)
         + Deposited(steps[1..], token)
  }

  function Withdrawn(steps: seq<Step>, token: Field): nat {
    if steps == [] then 0
    else (if steps[0].WithdrawStep? && steps[0].token == token then steps[0].amount else 0)
         + Withdrawn(steps[1..], token)
  }

  lemma TrackHoldingsNotes(hs: seq<Holding>, step: Step)
    ensures NotesIn(TrackHoldings(hs, step)) == Track(NotesIn(hs), step)
  {
    hide Produced, Kept;
    if InPlace(step, |hs|) {
      NotesInKept(hs, step);
      assert NotesIn(Under(step.token, Produced(step))) == Produced(step);
      NotesInAppend(Kept(hs, step), Under(step.token, Produced(step)));
    }
  }

  lemma NotesInRemoveAt(hs: seq<Holding>, i: nat)
    requires i < |hs|
    ensures NotesIn(RemoveAt(hs, i)) == RemoveAt(NotesIn(hs), i)
  {
  }

  lemma NotesInKept(hs: seq<Holding>, step: Step)
    requires InPlace(step, |hs|)
    ensures NotesIn(Kept(hs, step)) == Kept(NotesIn(hs), step)
  {
    hide NotesIn, RemoveAt;
    if step.MergeStep? {
      var low := if step.at < step.with then step.at else step.with;
      var high := if step.at < step.with then step.with else step.at;
      NotesInRemoveAt(hs, high);
      NotesInRemoveAt(RemoveAt(hs, high), low);
    } else {
      NotesInRemoveAt(hs, step.at);
    }
  }

  lemma NotesInAppend(a: seq<Holding>, b: seq<Holding>)
    ensures NotesIn(a + b) == NotesIn(a) + NotesIn(b)
  {
  }

  // ---------- Value of parts ----------

  lemma {:induction false} ValueAppend(a: seq<Holding>, b: seq<Holding>, token: Field)
    ensures Value(a + b, token) == Value(a, token) + Value(b, token)
  {
    if a == [] {
      assert a + b == b;
    } else {
      assert (a + b)[1..] == a[1..] + b;
      ValueAppend(a[1..], b, token);
    }
  }

  lemma ValueOne(h: Holding, token: Field)
    ensures Value([h], token) == AmountUnder(h, token)
  {
    assert [h][1..] == [];
  }

  lemma ValueRemoveAt(hs: seq<Holding>, i: nat, token: Field)
    requires i < |hs|
    ensures Value(RemoveAt(hs, i), token) == Value(hs, token) - AmountUnder(hs[i], token)
  {
    hide Value;
    var before, here, after := hs[..i], [hs[i]], hs[i + 1..];
    SplitAround(hs, i);
    ValueOne(hs[i], token);
    ValueAppend(before, here + after, token);
    ValueAppend(here, after, token);
    ValueAppend(before, after, token);
  }

  /** What a step consumes under one token. */
  function ConsumedUnder(hs: seq<Holding>, step: Step, token: Field): nat
    requires InPlace(step, |hs|)
  {
    AmountUnder(hs[step.at], token) + if step.MergeStep? then AmountUnder(hs[step.with], token) else 0
  }

  lemma ValueKept(hs: seq<Holding>, step: Step, token: Field)
    requires InPlace(step, |hs|)
    ensures Value(Kept(hs, step), token) == Value(hs, token) - ConsumedUnder(hs, step, token)
  {
    hide Value;
    if step.MergeStep? {
      var low := if step.at < step.with then step.at else step.with;
      var high := if step.at < step.with then step.with else step.at;
      ValueRemoveAt(hs, high, token);
      ValueRemoveAt(RemoveAt(hs, high), low, token);
      assert RemoveAt(hs, high)[low] == hs[low];
    } else {
      ValueRemoveAt(hs, step.at, token);
    }
  }

  lemma {:induction false} ValueUnder(notes: seq<Note>, own: Field, token: Field)
    ensures Value(Under(own, notes), token) == if own == token then Total(notes) else 0
  {
    if notes != [] {
      ValueUnder(notes[1..], own, token);
      assert Under(own, notes)[1..] == Under(own, notes[1..]);
    }
  }

  // ---------- One step ----------

  predicate Balanced(before: seq<Holding>, after: seq<Holding>, steps: seq<Step>, token: Field) {
    Value(after, token) + Withdrawn(steps, token) == Value(before, token) + Deposited(steps, token)
  }

  /** Every note the step consumes is one of its own token, or worth nothing. */
  predicate ConsumesOwn(hs: seq<Holding>, step: Step) {
    && InPlace(step, |hs|)
    && (hs[step.at].token == step.token || hs[step.at].note.amount == 0)
    && (step.MergeStep? ==> hs[step.with].token == step.token || hs[step.with].note.amount == 0)
  }

  /** What a step does to one token: it takes what it consumes there, and gives all of it to its own. */
  lemma StepValue(c: Primitives, hs: seq<Holding>, step: Step, token: Field)
    requires CastConstrains(c)
    requires Apply(c, Commits(c, NotesIn(hs)), step).Some?
    requires Binding(c, NotesOf(NotesIn(hs)) + Claimed(step))
    ensures InPlace(step, |hs|)
    ensures var consumed := hs[step.at].note.amount + if step.MergeStep? then hs[step.with].note.amount else 0;
            Value(TrackHoldings(hs, step), token) + ConsumedUnder(hs, step, token) + Withdrawn([step], token) ==
            Value(hs, token) + (if step.token == token then consumed else 0) + Deposited([step], token)
  {
    var made := Under(step.token, Produced(step));
    AcceptedClaimsMatch(c, NotesIn(hs), step);
    ProducedTotal(c, Commits(c, NotesIn(hs)), step);
    assert [step][0] == step && [step][1..] == [];
    assert Withdrawn([step], token) == (if step.WithdrawStep? && step.token == token then step.amount else 0);
    assert Deposited([step], token) == (if step.DepositStep? && step.token == token then step.amount else 0);
    hide Value, Total, Apply, Produced, Withdrawn, Deposited;
    ValueKept(hs, step, token);
    ValueAppend(Kept(hs, step), made, token);
    ValueUnder(Produced(step), step.token, token);
  }

  /**
   An accepted step keeps the value of every token exactly when all it consumes is of its own
   token or worth nothing.
   */
  lemma StepConservesTokensIff(c: Primitives, hs: seq<Holding>, step: Step)
    requires CastConstrains(c)
    requires Apply(c, Commits(c, NotesIn(hs)), step).Some?
    requires Binding(c, NotesOf(NotesIn(hs)) + Claimed(step))
    ensures (forall token :: Balanced(hs, TrackHoldings(hs, step), [step], token)) <==> ConsumesOwn(hs, step)
  {
    hide Value, Apply, Binding, Withdrawn, Deposited, TrackHoldings;
    StepValue(c, hs, step, step.token);
    if forall token :: Balanced(hs, TrackHoldings(hs, step), [step], token) {
      assert Balanced(hs, TrackHoldings(hs, step), [step], step.token);
    }
    if ConsumesOwn(hs, step) {
      forall token ensures Balanced(hs, TrackHoldings(hs, step), [step], token) {
        StepValue(c, hs, step, token);
      }
    }
  }

  // ---------- Whole runs ----------

  /** Every step of the run consumes notes of its own token only. */
  predicate RunConsumesOwn(hs: seq<Holding>, steps: seq<Step>)
    decreases |steps|
  {
    steps == [] || (ConsumesOwn(hs, steps[0]) && RunConsumesOwn(TrackHoldings(hs, steps[0]), steps[1..]))
  }

  lemma FlowSplits(step: Step, rest: seq<Step>, token: Field)
    ensures Deposited([step] + rest, token) == Deposited([step], token) + Deposited(rest, token)
    ensures Withdrawn([step] + rest, token) == Withdrawn([step], token) + Withdrawn(rest, token)
  {
    assert ([step] + rest)[1..] == rest && [step][1..] == [];
  }

  /** Every step of the run keeps the value of every token. */
  ghost predicate EveryStepBalances(hs: seq<Holding>, steps: seq<Step>)
    decreases |steps|
  {
    steps == []
    || ((forall token :: Balanced(hs, TrackHoldings(hs, steps[0]), [steps[0]], token))
        && EveryStepBalances(TrackHoldings(hs, steps[0]), steps[1..]))
  }

  /** Every token's value is kept all along a run exactly when no step consumes a foreign note. */
  lemma {:induction false} EveryStepBalancesIff(c: Primitives, hs: seq<Holding>, steps: seq<Step>)
    requires CastConstrains(c)
    requires Run(c, Commits(c, NotesIn(hs)), steps).Some?
    requires Binding(c, Openings(NotesIn(hs), steps))
    ensures EveryStepBalances(hs, steps) <==> RunConsumesOwn(hs, steps)
    decreases |steps|
  {
    if steps != [] {
      hide Apply, Track, Binding, Commits, Claimed, Balanced, ConsumesOwn, TrackHoldings;
      var step, rest, notes := steps[0], steps[1..], NotesIn(hs);
      FewerBind(c, NotesOf(notes) + Claimed(step), Openings(notes, steps));
      FewerBind(c, Openings(Track(notes, step), rest), Openings(notes, steps));
      StepTracks(c, notes, step);
      TrackHoldingsNotes(hs, step);
      StepConservesTokensIff(c, hs, step);
      EveryStepBalancesIff(c, TrackHoldings(hs, step), rest);
    }
  }

  /**
   Over every accepted run whose openings do not collide and whose steps consume notes of their
   own token, each token's value changes by exactly its deposits less its withdrawals.
   */
  lemma {:induction false} RunConservesTokens(c: Primitives, hs: seq<Holding>, steps: seq<Step>, token: Field)
    requires CastConstrains(c)
    requires Run(c, Commits(c, NotesIn(hs)), steps).Some?
    requires Binding(c, Openings(NotesIn(hs), steps))
    ensures RunConsumesOwn(hs, steps) ==> Balanced(hs, TrackHoldingsRun(hs, steps), steps, token)
    decreases |steps|
  {
    if steps != [] {
      hide Apply, Track, Binding, Commits, Claimed, Balanced, ConsumesOwn, TrackHoldings;
      var step, rest := steps[0], steps[1..];
      var notes, next := NotesIn(hs), TrackHoldings(hs, step);
      FewerBind(c, NotesOf(notes) + Claimed(step), Openings(notes, steps));
      FewerBind(c, Openings(Track(notes, step), rest), Openings(notes, steps));
      StepTracks(c, notes, step);
      TrackHoldingsNotes(hs, step);
      StepConservesTokensIff(c, hs, step);
      RunConservesTokens(c, next, rest, token);
      if RunConsumesOwn(hs, steps) {
        BalanceAdds(hs, next, TrackHoldingsRun(next, rest), steps, token);
      }
    }
  }

  lemma BalanceAdds(a: seq<Holding>, b: seq<Holding>, d: seq<Holding>, steps: seq<Step>, token: Field)
    requires steps != [] && Balanced(a, b, [steps[0]], token) && Balanced(b, d, steps[1..], token)
    ensures Balanced(a, d, steps, token)
  {
    assert steps == [steps[0]] + steps[1..];
    FlowSplits(steps[0], steps[1..], token);
    hide Value, Deposited, Withdrawn;
  }

  /**
   The circuits do not ask for that: a note made by a deposit under one token is withdrawn under
   another in an accepted run, and neither token's value is kept.
   */
  lemma TokensMix(c: Primitives, secret: Field, a: Field, b: Field, root: RootWords)
    requires CastConstrains(c)
    requires a != b
    ensures var account := c.hash([KEY_DOMAIN, secret]);
            var hs := [Holding(a, Note(0, 0))];
            var put := DepositStep(0, a, account, secret, Note(0, 0), 1, 0);
            var take := WithdrawStep(0, b, account, root, secret, 1, Note(1, 0), 0);
            && Run(c, Commits(c, NotesIn(hs)), [put, take]).Some?
            && !Balanced(hs, TrackHoldingsRun(hs, [put, take]), [put, take], a)
            && !Balanced(hs, TrackHoldingsRun(hs, [put, take]), [put, take], b)
  {
    var account := c.hash([KEY_DOMAIN, secret]);
    var hs := [Holding(a, Note(0, 0))];
    var put := DepositStep(0, a, account, secret, Note(0, 0), 1, 0);
    var take := WithdrawStep(0, b, account, root, secret, 1, Note(1, 0), 0);
    MixRunAccepted(c, secret, a, b, root);
    MixRunHoldings(c, secret, a, b, root);
    ValueOne(Holding(a, Note(0, 0)), a);
    ValueOne(Holding(a, Note(0, 0)), b);
    ValueOne(Holding(b, Note(0, 0)), a);
    ValueOne(Holding(b, Note(0, 0)), b);
    MixFlow(put, take, a);
    MixFlow(put, take, b);
  }

  lemma MixFlow(put: Step, take: Step, token: Field)
    requires put.DepositStep? && take.WithdrawStep?
    ensures Deposited([put, take], token) == if put.token == token then put.amount else 0
    ensures Withdrawn([put, take], token) == if take.token == token then take.amount else 0
  {
    assert [put, take] == [put] + [take];
    FlowSplits(put, [take], token);
    assert [put][1..] == [] && [take][1..] == [];
    assert [put][0] == put && [take][0] == take;
  }

  lemma MixRunAccepted(c: Primitives, secret: Field, a: Field, b: Field, root: RootWords)
    requires CastConstrains(c)
    ensures var account := c.hash([KEY_DOMAIN, secret]);
            var put := DepositStep(0, a, account, secret, Note(0, 0), 1, 0);
            var take := WithdrawStep(0, b, account, root, secret, 1, Note(1, 0), 0);
            Run(c, Commits(c, NotesIn([Holding(a, Note(0, 0))])), [put, take]).Some?
  {
    var account := c.hash([KEY_DOMAIN, secret]);
    var put := DepositStep(0, a, account, secret, Note(0, 0), 1, 0);
    var take := WithdrawStep(0, b, account, root, secret, 1, Note(1, 0), 0);
    var live, next := Commits(c, NotesIn([Holding(a, Note(0, 0))])), [Commit(c, Note(1, 0))];
    assert live == [Commit(c, Note(0, 0))];
    PutAccepted(c, secret, a);
    TakeAccepted(c, secret, b, root);
    hide Apply, Commit, Commits;
    assert [put, take][0] == put && [put, take][1..] == [take];
    assert [take][0] == take && [take][1..] == [];
    assert Run(c, next, [take]).Some?;
  }

  lemma PutAccepted(c: Primitives, secret: Field, token: Field)
    requires CastConstrains(c)
    ensures Apply(c, [Commit(c, Note(0, 0))],
                  DepositStep(0, token, c.hash([KEY_DOMAIN, secret]), secret, Note(0, 0), 1, 0))
         == Some([Commit(c, Note(1, 0))])
  {
    var live, account := [Commit(c, Note(0, 0))], c.hash([KEY_DOMAIN, secret]);
    var put := DepositStep(0, token, account, secret, Note(0, 0), 1, 0);
    DepositAccepts(c, token, account, live[0], secret, Note(0, 0), 1, 0);
    hide Deposit, Commit;
    assert Kept(live, put) == [];
    assert [] + [Commit(c, Note(1, 0))] == [Commit(c, Note(1, 0))];
    assert Returned(c, live, put) == Some([Commit(c, Note(0 + 1, 0))]);
  }

  lemma TakeAccepted(c: Primitives, secret: Field, token: Field, root: RootWords)
    requires CastConstrains(c)
    ensures Apply(c, [Commit(c, Note(1, 0))],
                  WithdrawStep(0, token, c.hash([KEY_DOMAIN, secret]), root, secret, 1, Note(1, 0), 0)).Some?
  {
    WithdrawAccepts(c, token, c.hash([KEY_DOMAIN, secret]), Commit(c, Note(1, 0)), root, secret, 1, Note(1, 0), 0);
    hide Withdraw, Commit;
  }

  lemma MixRunHoldings(c: Primitives, secret: Field, a: Field, b: Field, root: RootWords)
    ensures var account := c.hash([KEY_DOMAIN, secret]);
            var put := DepositStep(0, a, account, secret, Note(0, 0), 1, 0);
            var take := WithdrawStep(0, b, account, root, secret, 1, Note(1, 0), 0);
            TrackHoldingsRun([Holding(a, Note(0, 0))], [put, take]) == [Holding(b, Note(0, 0))]
  {
    var account := c.hash([KEY_DOMAIN, secret]);
    var put := DepositStep(0, a, account, secret, Note(0, 0), 1, 0);
    var take := WithdrawStep(0, b, account, root, secret, 1, Note(1, 0), 0);
    var hs := [Holding(a, Note(0, 0))];
    assert TrackHoldings(hs, put) == [Holding(a, Note(1, 0))];
    assert TrackHoldings([Holding(a, Note(1, 0))], take) == [Holding(b, Note(0, 0))];
    assert [put, take][1..] == [take] && [take][1..] == [];
    assert TrackHoldingsRun([Holding(a, Note(1, 0))], [take]) == [Holding(b, Note(0, 0))];
  }
}
