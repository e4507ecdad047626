/**
 Runs of accepted circuit executions over the commitments that are live on the ledger. Each
 execution consumes live commitments at distinct places and appends the ones it returns; the
 hidden openings are followed beside it, to say what a run does to the value they hold.
 */
module Ledger {
  import opened Outcomes
  import opened ConfidentialCircuits

  /** One execution: the places of what it consumes, its public inputs and its witness. */
  datatype Step =
    | DepositStep(at: nat, token: Field, account: Field, secret: Field, opening: Note,
                  amount: Field, blinding: Field)
    | MergeStep(at: nat, with: nat, token: Field, account: Field, root: RootWords, secret: Field,
                opening: Note, other: Note, blinding: Field)
    | TransferStep(at: nat, token: Field, sender: Field, recipient: Field, root: RootWords, secret: Field,
                   amount: Field, opening: Note, recipientBlinding: Field, changeBlinding: Field)
    | WithdrawStep(at: nat, token: Field, account: Field, root: RootWords, secret: Field,
                   amount: Field, opening: Note, changeBlinding: Field)

  function RemoveAt<T>(s: seq<T>, i: nat): (r: seq<T>)
    requires i < |s|
    ensures |r| == |s| - 1
  {
    s[..i] + s[i + 1..]
  }

  function RemoveTwo<T>(s: seq<T>, i: nat, j: nat): seq<T>
    requires i < |s| && j < |s| && i != j
  {
    if i < j then RemoveAt(RemoveAt(s, j), i) else RemoveAt(RemoveAt(s, i), j)
  }

  lemma SplitAround<T>(s: seq<T>, i: nat)
    requires i < |s|
    ensures s == s[..i] + ([s[i]] + s[i + 1..])
    ensures RemoveAt(s, i) == s[..i] + s[i + 1..]
  {
  }

  predicate InPlace(step: Step, size: nat) {
    step.at < size && (step.MergeStep? ==> step.with < size && step.with != step.at)
  }

  /** What stays when a step's commitments are consumed. */
  function Kept<T>(s: seq<T>, step: Step): seq<T>
    requires InPlace(step, |s|)
  {
    if step.MergeStep? then RemoveTwo(s, step.at, step.with) else RemoveAt(s, step.at)
  }

  /** The commitments the step's circuit returns, when a proof for it exists. */
  function Returned(c: Primitives, live: seq<Field>, step: Step): Option<seq<Field>>
    requires InPlace(step, |live|)
  {
    match step
    case DepositStep(at, token, account, secret, opening, amount, blinding) =>
      var out :- Deposit(c, token, account, live[at], secret, opening, amount, blinding);
      Some([out.newCommitment])
    case MergeStep(at, with, token, account, root, secret, opening, other, blinding) =>
      var out :- Merge(c, token, account, live[at], live[with], root, secret, opening, other, blinding);
      Some([out.merged])
    case TransferStep(at, token, sender, recipient, root, secret, amount, opening, recipientBlinding, changeBlinding) =>
      var out :- Transfer(c, token, sender, recipient, live[at], root, secret, amount, opening,
                          recipientBlinding, changeBlinding);
      Some([out.recipient, out.change])
    case WithdrawStep(at, token, account, root, secret, amount, opening, changeBlinding) =>
      var out :- Withdraw(c, token, account, live[at], root, secret, amount, opening, changeBlinding);
      Some([out.change])
  }

  /** The live commitments after a step, when it is accepted. */
  function Apply(c: Primitives, live: seq<Field>, step: Step): Option<seq<Field>> {
    if !InPlace(step, |live|) then None
    else
      var returned :- Returned(c, live, step);
      Some(Kept(live, step) + returned)
  }

  function Run(c: Primitives, live: seq<Field>, steps: seq<Step>): Option<seq<Field>>
    decreases |steps|
  {
    if steps == [] then Some(live)
    else
      var next :- Apply(c, live, steps[0]);
      Run(c, next, steps[1..])
  }

  // ---------- The openings behind the commitments ----------

  function Commits(c: Primitives, notes: seq<Note>): (live: seq<Field>)
    ensures |live| == |notes|
    ensures forall i :: 0 <= i < |notes| ==> live[i] == Commit(c, notes[i])
  {
    seq(|notes|, i requires 0 <= i < |notes| => Commit(c, notes[i]))
  }

  /** The integer sum and difference, where a field element holds them. */
  function Sum(a: Field, b: Field): Field {
    if a + b < 21888242871839275222246405745257275088548364400416034343698204186575808495617 then a + b else 0
  }

  function Difference(a: Field, b: Field): Field {
    if b <= a then a - b else 0
  }

  /** The openings a step's new commitments are made from. */
  function Produced(step: Step): seq<Note> {
    match step
    case DepositStep(_, _, _, _, opening, amount, blinding) =>
      [Note(Sum(opening.amount, amount), blinding)]
    case MergeStep(_, _, _, _, _, _, opening, other, blinding) =>
      [Note(Sum(opening.amount, other.amount), blinding)]
    case TransferStep(_, _, _, _, _, _, amount, opening, recipientBlinding, changeBlinding) =>
      [Note(amount, recipientBlinding),
       Note(Difference(opening.amount, amount), changeBlinding)]
    case WithdrawStep(_, _, _, _, _, amount, opening, changeBlinding) =>
      [Note(Difference(opening.amount, amount), changeBlinding)]
  }

  function Track(notes: seq<Note>, step: Step): seq<Note> {
    if !InPlace(step, |notes|) then notes else Kept(notes, step) + Produced(step)
  }

  function TrackRun(notes: seq<Note>, steps: seq<Step>): seq<Note>
    decreases |steps|
  {
    if steps == [] then notes else TrackRun(Track(notes, steps[0]), steps[1..])
  }

  function Total(notes: seq<Note>): nat {
    if notes == [] then 0 else notes[0].amount + Total(notes[1..])
  }

  function Deposited(steps: seq<Step>): nat {
    if steps == [] then 0
    else (if steps[0].DepositStep? then steps[0].amount else 0) + Deposited(steps[1..])
  }

  function Withdrawn(steps: seq<Step>): nat {
    if steps == [] then 0
    else (if steps[0].WithdrawStep? then steps[0].amount else 0) + Withdrawn(steps[1..])
  }

  // ---------- Binding ----------

  /** The openings a step's witness claims for what it consumes. */
  function Claimed(step: Step): set<Note> {
    if step.MergeStep? then {step.opening, step.other} else {step.opening}
  }

  function NotesOf(notes: seq<Note>): set<Note> {
    set i | 0 <= i < |notes| :: notes[i]
  }

  /** Every opening that occurs in a run. */
  function Openings(notes: seq<Note>, steps: seq<Step>): set<Note>
    decreases |steps|
  {
    if steps == [] then NotesOf(notes)
    else NotesOf(notes) + Claimed(steps[0]) + Openings(Track(notes, steps[0]), steps[1..])
  }

  /** No two of these openings collide in one commitment. */
  ghost predicate Binding(c: Primitives, openings: set<Note>) {
    forall a, b :: a in openings && b in openings && Commit(c, a) == Commit(c, b) ==> a == b
  }

  // ---------- One step ----------

  lemma {:induction false} TotalAppend(a: seq<Note>, b: seq<Note>)
    ensures Total(a + b) == Total(a) + Total(b)
  {
    if a == [] {
      assert a + b == b;
    } else {
      assert (a + b)[1..] == a[1..] + b;
      TotalAppend(a[1..], b);
    }
  }

  lemma SmallTotals(notes: seq<Note>)
    ensures |notes| == 1 ==> Total(notes) == notes[0].amount
    ensures |notes| == 2 ==> Total(notes) == notes[0].amount + notes[1].amount
  {
    if |notes| == 2 {
      assert Total(notes[1..]) == notes[1].amount + Total(notes[1..][1..]);
    }
  }

  lemma TotalRemoveAt(notes: seq<Note>, i: nat)
    requires i < |notes|
    ensures Total(RemoveAt(notes, i)) == Total(notes) - notes[i].amount
  {
    hide Total;
    var before, here, after := notes[..i], [notes[i]], notes[i + 1..];
    SplitAround(notes, i);
    SmallTotals(here);
    TotalAppend(before, here + after);
    TotalAppend(here, after);
    TotalAppend(before, after);
  }

  lemma TotalRemoveTwo(notes: seq<Note>, i: nat, j: nat)
    requires i < |notes| && j < |notes| && i != j
    ensures Total(RemoveTwo(notes, i, j)) == Total(notes) - notes[i].amount - notes[j].amount
  {
    var low, high := if i < j then i else j, if i < j then j else i;
    TotalRemoveAt(notes, high);
    TotalRemoveAt(RemoveAt(notes, high), low);
    assert RemoveAt(notes, high)[low] == notes[low];
  }

  /** An accepted step claims for each place it consumes an opening of the commitment there. */
  predicate ClaimsMatch(notes: seq<Note>, step: Step) {
    && InPlace(step, |notes|)
    && notes[step.at] == step.opening
    && (step.MergeStep? ==> notes[step.with] == step.other)
  }

  lemma AcceptedClaimsMatch(c: Primitives, notes: seq<Note>, step: Step)
    requires Apply(c, Commits(c, notes), step).Some?
    requires Binding(c, NotesOf(notes) + Claimed(step))
    ensures ClaimsMatch(notes, step)
  {
    assert notes[step.at] in NotesOf(notes);
    if step.MergeStep? {
      assert notes[step.with] in NotesOf(notes);
    }
  }

  lemma AcceptedRanges(c: Primitives, live: seq<Field>, step: Step)
    requires CastConstrains(c)
    requires Apply(c, live, step).Some?
    ensures step.opening.amount < TWO_63
    ensures step.DepositStep? ==> step.amount < TWO_63
    ensures step.MergeStep? ==> step.other.amount < TWO_63
    ensures step.TransferStep? || step.WithdrawStep? ==> step.amount <= step.opening.amount
  {
    match step
    case DepositStep(at, token, account, secret, opening, amount, blinding) =>
      DepositAccepts(c, token, account, live[at], secret, opening, amount, blinding);
    case MergeStep(at, with, token, account, root, secret, opening, other, blinding) =>
      MergeAccepts(c, token, account, live[at], live[with], root, secret, opening, other, blinding);
    case TransferStep(at, token, sender, recipient, root, secret, amount, opening, recipientBlinding, changeBlinding) =>
      TransferAccepts(c, token, sender, recipient, live[at], root, secret, amount, opening,
                      recipientBlinding, changeBlinding);
    case WithdrawStep(at, token, account, root, secret, amount, opening, changeBlinding) =>
      WithdrawAccepts(c, token, account, live[at], root, secret, amount, opening, changeBlinding);
  }

  /** What the produced openings hold, as integers. */
  lemma ProducedTotal(c: Primitives, live: seq<Field>, step: Step)
    requires CastConstrains(c)
    requires Apply(c, live, step).Some?
    ensures Total(Produced(step)) == match step
                                     case DepositStep(_, _, _, _, opening, amount, _) => opening.amount + amount
                                     case MergeStep(_, _, _, _, _, _, opening, other, _) =>
                                       opening.amount + other.amount
                                     case TransferStep(_, _, _, _, _, _, _, opening, _, _) => opening.amount
                                     case WithdrawStep(_, _, _, _, _, amount, opening, _) => opening.amount - amount
  {
    AcceptedRanges(c, live, step);
    SmallTotals(Produced(step));
    match step {
      case DepositStep(_, _, _, _, opening, amount, _) => AddBoundedExact(c, opening.amount, amount);
      case MergeStep(_, _, _, _, _, _, opening, other, _) => AddBoundedExact(c, opening.amount, other.amount);
      case TransferStep(_, _, _, _, _, _, amount, opening, _, _) => SubtractBoundedExact(c, opening.amount, amount);
      case WithdrawStep(_, _, _, _, _, amount, opening, _) => SubtractBoundedExact(c, opening.amount, amount);
    }
  }

  lemma CommitsAppend(c: Primitives, a: seq<Note>, b: seq<Note>)
    ensures Commits(c, a + b) == Commits(c, a) + Commits(c, b)
  {
  }

  lemma CommitsRemoveAt(c: Primitives, notes: seq<Note>, i: nat)
    requires i < |notes|
    ensures Commits(c, RemoveAt(notes, i)) == RemoveAt(Commits(c, notes), i)
  {
  }

  /** The tracked openings keep opening exactly the live commitments. */
  lemma StepTracks(c: Primitives, notes: seq<Note>, step: Step)
    requires CastConstrains(c)
    requires Apply(c, Commits(c, notes), step).Some?
    ensures Apply(c, Commits(c, notes), step) == Some(Commits(c, Track(notes, step)))
  {
    hide Commits, Produced, Returned, RemoveAt;
    CommitsAppend(c, Kept(notes, step), Produced(step));
    if step.MergeStep? {
      var low := if step.at < step.with then step.at else step.with;
      var high := if step.at < step.with then step.with else step.at;
      CommitsRemoveAt(c, notes, high);
      CommitsRemoveAt(c, RemoveAt(notes, high), low);
    } else {
      CommitsRemoveAt(c, notes, step.at);
    }
    ReturnedCommits(c, Commits(c, notes), step);
  }

  lemma ReturnedCommits(c: Primitives, live: seq<Field>, step: Step)
    requires CastConstrains(c)
    requires InPlace(step, |live|) && Returned(c, live, step).Some?
    ensures Returned(c, live, step).value == Commits(c, Produced(step))
  {
    match step {
      case DepositStep(_, _, _, _, opening, amount, _) => AddBoundedExact(c, opening.amount, amount);
      case MergeStep(_, _, _, _, _, _, opening, other, _) => AddBoundedExact(c, opening.amount, other.amount);
      case TransferStep(_, _, _, _, _, _, amount, opening, _, _) => SubtractBoundedExact(c, opening.amount, amount);
      case WithdrawStep(_, _, _, _, _, amount, opening, _) => SubtractBoundedExact(c, opening.amount, amount);
    }
    hide AddBounded, SubtractBounded;
  }

  /** One step moves the total by exactly what it deposits or withdraws. */
  lemma StepConserves(c: Primitives, notes: seq<Note>, step: Step)
    requires CastConstrains(c)
    requires Apply(c, Commits(c, notes), step).Some?
    requires Binding(c, NotesOf(notes) + Claimed(step))
    ensures Total(Track(notes, step)) + Withdrawn([step]) == Total(notes) + Deposited([step])
  {
    AcceptedClaimsMatch(c, notes, step);
    ProducedTotal(c, Commits(c, notes), step);
    if step.MergeStep? {
      TotalRemoveTwo(notes, step.at, step.with);
      TotalAppend(Kept(notes, step), Produced(step));
    } else {
      TotalRemoveAt(notes, step.at);
      TotalAppend(Kept(notes, step), Produced(step));
    }
    assert [step][1..] == [];
  }

  // ---------- Whole runs ----------

  /** After every accepted run the tracked openings open exactly the live commitments. */
  lemma {:induction false} RunTracks(c: Primitives, notes: seq<Note>, steps: seq<Step>)
    requires CastConstrains(c)
    requires Run(c, Commits(c, notes), steps).Some?
    ensures Run(c, Commits(c, notes), steps).value == Commits(c, TrackRun(notes, steps))
    decreases |steps|
  {
    if steps != [] {
      hide Apply, Track, Commits;
      StepTracks(c, notes, steps[0]);
      RunTracks(c, Track(notes, steps[0]), steps[1..]);
    }
  }

  /**
   Over every accepted run whose openings do not collide, the hidden value changes by exactly
   what was deposited less what was withdrawn, as integers.
   */
  lemma {:induction false} RunConserves(c: Primitives, notes: seq<Note>, steps: seq<Step>)
    requires CastConstrains(c)
    requires Run(c, Commits(c, notes), steps).Some?
    requires Binding(c, Openings(notes, steps))
    ensures Total(TrackRun(notes, steps)) + Withdrawn(steps) == Total(notes) + Deposited(steps)
    decreases |steps|
  {
    if steps != [] {
      hide Apply, Track, Binding, Commits, Claimed;
      var step, rest := steps[0], steps[1..];
      FewerBind(c, NotesOf(notes) + Claimed(step), Openings(notes, steps));
      FewerBind(c, Openings(Track(notes, step), rest), Openings(notes, steps));
      StepTracks(c, notes, step);
      StepConserves(c, notes, step);
      RunConserves(c, Track(notes, step), rest);
      assert [step][0] == step && [step][1..] == [];
    }
  }

  lemma FewerBind(c: Primitives, few: set<Note>, many: set<Note>)
    requires few <= many && Binding(c, many)
    ensures Binding(c, few)
  {
  }

  predicate AllInternal(steps: seq<Step>) {
    steps == [] || ((steps[0].MergeStep? || steps[0].TransferStep?) && AllInternal(steps[1..]))
  }

  /** Merges and transfers alone leave the total as it was. */
  lemma {:induction false} InternalRunsKeepTotal(c: Primitives, notes: seq<Note>, steps: seq<Step>)
    requires CastConstrains(c)
    requires Run(c, Commits(c, notes), steps).Some?
    requires Binding(c, Openings(notes, steps))
    ensures AllInternal(steps) ==> Total(TrackRun(notes, steps)) == Total(notes)
  {
    RunConserves(c, notes, steps);
    if AllInternal(steps) {
      NothingMoved(steps);
    }
  }

  lemma {:induction false} NothingMoved(steps: seq<Step>)
    requires AllInternal(steps)
    ensures Deposited(steps) == 0 && Withdrawn(steps) == 0
  {
    if steps != [] {
      NothingMoved(steps[1..]);
    }
  }

  // ---------- Amounts in 64 bits, and amounts that can no longer move ----------

  predicate Bounded(notes: seq<Note>) {
    forall i :: 0 <= i < |notes| ==> notes[i].amount < TWO_64
  }

  lemma ProducedBounded(c: Primitives, live: seq<Field>, step: Step)
    requires CastConstrains(c)
    requires Apply(c, live, step).Some?
    ensures Bounded(Produced(step))
  {
    AcceptedRanges(c, live, step);
    hide Apply;
    match step {
      case DepositStep(_, _, _, _, opening, amount, _) => AddBoundedExact(c, opening.amount, amount);
      case MergeStep(_, _, _, _, _, _, opening, other, _) => AddBoundedExact(c, opening.amount, other.amount);
      case TransferStep(_, _, _, _, _, _, amount, opening, _, _) => SubtractBoundedExact(c, opening.amount, amount);
      case WithdrawStep(_, _, _, _, _, amount, opening, _) => SubtractBoundedExact(c, opening.amount, amount);
    }
  }

  lemma BoundedAppend(a: seq<Note>, b: seq<Note>)
    requires Bounded(a) && Bounded(b)
    ensures Bounded(a + b)
  {
  }

  lemma BoundedRemoveAt(notes: seq<Note>, i: nat)
    requires i < |notes| && Bounded(notes)
    ensures Bounded(RemoveAt(notes, i))
  {
  }

  lemma StepKeepsBounded(c: Primitives, notes: seq<Note>, step: Step)
    requires CastConstrains(c)
    requires Apply(c, Commits(c, notes), step).Some? && Bounded(notes)
    ensures Bounded(Track(notes, step))
  {
    assert InPlace(step, |notes|);
    ProducedBounded(c, Commits(c, notes), step);
    hide Apply, Bounded, Produced, Commits, RemoveAt;
    if step.MergeStep? {
      var low := if step.at < step.with then step.at else step.with;
      var high := if step.at < step.with then step.with else step.at;
      BoundedRemoveAt(notes, high);
      BoundedRemoveAt(RemoveAt(notes, high), low);
      BoundedAppend(RemoveTwo(notes, step.at, step.with), Produced(step));
    } else {
      BoundedRemoveAt(notes, step.at);
      BoundedAppend(RemoveAt(notes, step.at), Produced(step));
    }
  }

  /** No run makes an amount of more than 64 bits. */
  lemma {:induction false} RunKeepsBounded(c: Primitives, notes: seq<Note>, steps: seq<Step>)
    requires CastConstrains(c)
    requires Run(c, Commits(c, notes), steps).Some? && Bounded(notes)
    ensures Bounded(TrackRun(notes, steps))
    decreases |steps|
  {
    if steps != [] {
      hide Apply, Track, Commits;
      StepTracks(c, notes, steps[0]);
      StepKeepsBounded(c, notes, steps[0]);
      RunKeepsBounded(c, Track(notes, steps[0]), steps[1..]);
    }
  }

  /** The live notes that no step can consume any more. */
  function Stuck(notes: seq<Note>): multiset<Note> {
    if notes == [] then multiset{}
    else (if notes[0].amount >= TWO_63 then multiset{notes[0]} else multiset{}) + Stuck(notes[1..])
  }

  lemma {:induction false} StuckAppend(a: seq<Note>, b: seq<Note>)
    ensures Stuck(a + b) == Stuck(a) + Stuck(b)
  {
    if a == [] {
      assert a + b == b;
    } else {
      assert (a + b)[1..] == a[1..] + b;
      StuckAppend(a[1..], b);
    }
  }

  lemma StuckRemoveAt(notes: seq<Note>, i: nat)
    requires i < |notes| && notes[i].amount < TWO_63
    ensures Stuck(RemoveAt(notes, i)) == Stuck(notes)
  {
    var before, here, after := notes[..i], [notes[i]], notes[i + 1..];
    assert Stuck(here) == multiset{} by {
      assert here[1..] == [];
    }
    hide Stuck;
    SplitAround(notes, i);
    StuckAppend(before, here + after);
    StuckAppend(here, after);
    StuckAppend(before, after);
  }

  lemma StepKeepsStuck(c: Primitives, notes: seq<Note>, step: Step)
    requires CastConstrains(c)
    requires Apply(c, Commits(c, notes), step).Some?
    requires Binding(c, NotesOf(notes) + Claimed(step))
    ensures Stuck(Track(notes, step)) == Stuck(notes) + Stuck(Produced(step))
  {
    AcceptedClaimsMatch(c, notes, step);
    AcceptedRanges(c, Commits(c, notes), step);
    hide Apply, Binding, Stuck, Produced, RemoveAt, Commits;
    if step.MergeStep? {
      var low := if step.at < step.with then step.at else step.with;
      var high := if step.at < step.with then step.with else step.at;
      StuckRemoveAt(notes, high);
      SplitAround(notes, high);
      assert RemoveAt(notes, high)[low] == notes[low];
      StuckRemoveAt(RemoveAt(notes, high), low);
    } else {
      StuckRemoveAt(notes, step.at);
    }
    StuckAppend(Kept(notes, step), Produced(step));
  }

  /** Value that reaches 2^63 in one note never moves again: no accepted run consumes it. */
  lemma {:induction false} StuckStays(c: Primitives, notes: seq<Note>, steps: seq<Step>)
    requires CastConstrains(c)
    requires Run(c, Commits(c, notes), steps).Some?
    requires Binding(c, Openings(notes, steps))
    ensures Stuck(notes) <= Stuck(TrackRun(notes, steps))
    decreases |steps|
  {
    if steps != [] {
      hide Apply, Track, Binding, Commits, Claimed, Stuck, Produced;
      var step, rest := steps[0], steps[1..];
      FewerBind(c, NotesOf(notes) + Claimed(step), Openings(notes, steps));
      FewerBind(c, Openings(Track(notes, step), rest), Openings(notes, steps));
      StepTracks(c, notes, step);
      StepKeepsStuck(c, notes, step);
      StuckStays(c, Track(notes, step), rest);
    }
  }
}
