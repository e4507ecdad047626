/**
 What a nullifier tells about the commitment it was published for, over accepted steps of every
 kind, and who can spend a note. The documentation promises that a nullifier marks its
 commitment as spent and that only the account's secret spends the account's commitments.
 */
module Nullifiers {
  import opened Outcomes
  import opened Requests
  import opened ConfidentialCircuits
  import opened Ledger

  /** What goes into one nullifier. Deposits bind no root. */
  datatype Spend =
    | TokenSpend(secret: Field, commitment: Field, token: Field)
    | StateSpend(secret: Field, commitment: Field, token: Field, root: RootWords)

  function Preimage(s: Spend): seq<Field> {
    match s
    case TokenSpend(secret, commitment, token) => TokenPreimage(secret, commitment, token)
    case StateSpend(secret, commitment, token, root) => StatePreimage(secret, commitment, token, root)
  }

  /** The nullifiers that a step's circuit returns, when a proof for it exists. */
  function Published(c: Primitives, live: seq<Field>, step: Step): Option<seq<Field>>
    requires InPlace(step, |live|)
  {
    match step
    case DepositStep(at, token, account, secret, opening, amount, blinding) =>
      var out :- Deposit(c, token, account, live[at], secret, opening, amount, blinding);
      Some([out.nullifier])
    case MergeStep(at, with, token, account, root, secret, opening, other, blinding) =>
      var out :- Merge(c, token, account, live[at], live[with], root, secret, opening, other, blinding);
      Some([out.nullifierA, out.nullifierB])
    case TransferStep(at, token, sender, recipient, root, secret, amount, opening, recipientBlinding, changeBlinding) =>
      var out :- Transfer(c, token, sender, recipient, live[at], root, secret, amount, opening,
                          recipientBlinding, changeBlinding);
      Some([out.nullifier])
    case WithdrawStep(at, token, account, root, secret, amount, opening, changeBlinding) =>
      var out :- Withdraw(c, token, account, live[at], root, secret, amount, opening, changeBlinding);
      Some([out.nullifier])
  }

  /** What a step spends, in the order of its nullifiers. */
  function Spends(live: seq<Field>, step: Step): seq<Spend>
    requires InPlace(step, |live|)
  {
    match step
    case DepositStep(at, token, _, secret, _, _, _) => [TokenSpend(secret, live[at], token)]
    case MergeStep(at, with, token, _, root, secret, _, _, _) =>
      [StateSpend(secret, live[at], token, root), StateSpend(secret, live[with], token, root)]
    case TransferStep(at, token, _, _, root, secret, _, _, _, _) => [StateSpend(secret, live[at], token, root)]
    case WithdrawStep(at, token, _, root, secret, _, _, _) => [StateSpend(secret, live[at], token, root)]
  }

  /** Every accepted step publishes one nullifier for each commitment it spends, its hash. */
  lemma PublishedAreHashes(c: Primitives, live: seq<Field>, step: Step)
    requires InPlace(step, |live|)
    ensures Published(c, live, step).Some? <==> Apply(c, live, step).Some?
    ensures Published(c, live, step).Some? ==>
              var ns, ss := Published(c, live, step).value, Spends(live, step);
              |ns| == |ss| && forall k :: 0 <= k < |ss| ==> ns[k] == c.hash(Preimage(ss[k]))
  {
    hide OwnedBy, Commit, AddBounded, SubtractBounded, Kept;
  }

  lemma PreimageInjective(a: Spend, b: Spend)
    ensures Preimage(a) == Preimage(b) <==> a == b
  {
    var x, y := Preimage(a), Preimage(b);
    if x == y {
      assert |x| == |y| && x[0] == y[0] && x[1] == y[1] && x[2] == y[2];
      if a.StateSpend? {
        assert x[3] == y[3] && x[4] == y[4];
      }
    }
  }

  /** The `k`-th spend of a step that has a proof, which by `PublishedAreHashes` is an accepted one. */
  predicate Accepted(c: Primitives, live: seq<Field>, step: Step, k: nat) {
    InPlace(step, |live|) && Published(c, live, step).Some? && k < |Spends(live, step)|
  }

  function SpendAt(c: Primitives, live: seq<Field>, step: Step, k: nat): Spend
    requires Accepted(c, live, step, k)
  {
    Spends(live, step)[k]
  }

  function NullifierAt(c: Primitives, live: seq<Field>, step: Step, k: nat): Field
    requires Accepted(c, live, step, k)
  {
    PublishedAreHashes(c, live, step);
    Published(c, live, step).value[k]
  }

  /**
   Whether a second spend of a commitment is noticed, for any two accepted steps of any kind on
   any ledgers: their nullifiers agree exactly when both are deposits with one secret and token,
   or both are state-bound with one secret, token and root, or else the preimages collide.
   */
  lemma SecondSpendNoticedIff(c: Primitives, live: seq<Field>, step: Step, k: nat,
                              live': seq<Field>, step': Step, k': nat)
    requires Accepted(c, live, step, k) && Accepted(c, live', step', k')
    requires SpendAt(c, live, step, k).commitment == SpendAt(c, live', step', k').commitment
    ensures NullifierAt(c, live, step, k) == NullifierAt(c, live', step', k') <==>
            || (step.DepositStep? && step'.DepositStep? && step.secret == step'.secret && step.token == step'.token)
            || (!step.DepositStep? && !step'.DepositStep? && step.secret == step'.secret
                && step.token == step'.token && step.root == step'.root)
            || HashCollision(c, Preimage(SpendAt(c, live, step, k)), Preimage(SpendAt(c, live', step', k')))
  {
    PublishedAreHashes(c, live, step);
    PublishedAreHashes(c, live', step');
    PreimageInjective(SpendAt(c, live, step, k), SpendAt(c, live', step', k'));
    SpendShape(live, step, k);
    SpendShape(live', step', k');
    hide Apply, Published, Spends, Preimage;
  }

  lemma SpendShape(live: seq<Field>, step: Step, k: nat)
    requires InPlace(step, |live|) && k < |Spends(live, step)|
    ensures var s := Spends(live, step)[k];
            && s.secret == step.secret && s.token == step.token
            && (step.DepositStep? <==> s.TokenSpend?)
            && (!step.DepositStep? ==> s.root == step.root)
  {
  }

  /** Where the public root words are those of two digests, "one root" means the full 256 bits. */
  lemma SecondSpendUnderRoots(c: Primitives, live: seq<Field>, step: Step, k: nat,
                              live': seq<Field>, step': Step, k': nat, root: Digest256, root': Digest256)
    requires Accepted(c, live, step, k) && Accepted(c, live', step', k')
    requires SpendAt(c, live, step, k).commitment == SpendAt(c, live', step', k').commitment
    requires !step.DepositStep? && step.root == WordsOfRoot(root)
    requires !step'.DepositStep? && step'.root == WordsOfRoot(root')
    requires !HashCollision(c, Preimage(SpendAt(c, live, step, k)), Preimage(SpendAt(c, live', step', k')))
    ensures NullifierAt(c, live, step, k) == NullifierAt(c, live', step', k') <==>
            step.secret == step'.secret && step.token == step'.token && root == root'
  {
    hide Apply, Published, Spends, Preimage, WordsOfRoot;
    SecondSpendNoticedIff(c, live, step, k, live', step', k');
    WordsOfRootInjective(root, root');
  }

  // ---------- Owners ----------

  function AccountOf(step: Step): Field {
    if step.TransferStep? then step.sender else step.account
  }

  /** Every accepted step names the address of its secret. */
  lemma StepNamesItsOwner(c: Primitives, live: seq<Field>, step: Step)
    requires Apply(c, live, step).Some?
    ensures AccountOf(step) == c.hash([0x6b6579, step.secret])
  {
    hide Commit, AddBounded, SubtractBounded, Kept;
  }

  /** So one address goes with two secrets, in any two accepted steps, only by a collision. */
  lemma OneAddressOneSecret(c: Primitives, live: seq<Field>, step: Step, live': seq<Field>, step': Step)
    requires Apply(c, live, step).Some? && Apply(c, live', step').Some?
    ensures AccountOf(step) == AccountOf(step') <==>
            step.secret == step'.secret || HashCollision(c, [0x6b6579, step.secret], [0x6b6579, step'.secret])
  {
    hide Apply;
    StepNamesItsOwner(c, live, step);
    StepNamesItsOwner(c, live', step');
    assert [0x6b6579 as Field, step.secret][1] == step.secret && [0x6b6579 as Field, step'.secret][1] == step'.secret;
  }

  // ---------- Who can spend a note ----------

  datatype Kind = Depositing | Merging | Transferring | Withdrawing

  function KindOf(step: Step): Kind {
    match step
    case DepositStep(_, _, _, _, _, _, _) => Depositing
    case MergeStep(_, _, _, _, _, _, _, _, _) => Merging
    case TransferStep(_, _, _, _, _, _, _, _, _, _) => Transferring
    case WithdrawStep(_, _, _, _, _, _, _, _) => Withdrawing
  }

  function AddressOf(c: Primitives, secret: Field): Field {
    c.hash([KEY_DOMAIN, secret])
  }

  /** A step of each kind that consumes the first live commitment under some secret's own address. */
  function SpendFirst(c: Primitives, kind: Kind, secret: Field, token: Field, root: RootWords, note: Note): Step {
    var account := AddressOf(c, secret);
    match kind
    case Depositing => DepositStep(0, token, account, secret, note, 0, 0)
    case Merging => MergeStep(0, 1, token, account, root, secret, note, Note(0, 0), 0)
    case Transferring => TransferStep(0, token, account, account, root, secret, 0, note, 0, 0)
    case Withdrawing => WithdrawStep(0, token, account, root, secret, 0, note, 0)
  }

  /** The note to spend, and an empty one for merges. */
  function TwoNotes(c: Primitives, note: Note): seq<Field> {
    [Commit(c, note), Commit(c, Note(0, 0))]
  }

  /**
   A note names no account: its opening and the secret of any account at all suffice to consume
   it, by an operation of any kind, exactly when its amount is below 2^63.
   */
  lemma AnySecretSpends(c: Primitives, kind: Kind, secret: Field, token: Field, root: RootWords, note: Note)
    requires CastConstrains(c)
    ensures Apply(c, TwoNotes(c, note), SpendFirst(c, kind, secret, token, root, note)).Some? <==>
            note.amount < TWO_63
  {
    var cm, account, other := Commit(c, note), AddressOf(c, secret), Note(0, 0);
    DepositAccepts(c, token, account, cm, secret, note, 0, 0);
    MergeAccepts(c, token, account, cm, Commit(c, other), root, secret, note, other, 0);
    TransferAccepts(c, token, account, account, cm, root, secret, 0, note, 0, 0);
    WithdrawAccepts(c, token, account, cm, root, secret, 0, note, 0);
    hide Deposit, Merge, Transfer, Withdraw;
  }

  /** The step is accepted and claims this opening for a commitment it consumes. */
  predicate Consumes(c: Primitives, live: seq<Field>, step: Step, note: Note) {
    Apply(c, live, step).Some? && note in Claimed(step)
  }

  /**
   Whatever secret and kind of operation, a note can be consumed exactly when its amount is
   below 2^63; so what a deposit or merge makes can be spent exactly when the sum stayed below.
   */
  lemma SpendableIff(c: Primitives, kind: Kind, secret: Field, note: Note)
    requires CastConstrains(c)
    ensures (exists live, step: Step :: step.secret == secret && KindOf(step) == kind && Consumes(c, live, step, note))
       <==> note.amount < TWO_63
  {
    if live, step: Step :| step.secret == secret && KindOf(step) == kind && Consumes(c, live, step, note) {
      AcceptedRanges(c, live, step);
    }
    if note.amount < TWO_63 {
      var root := RootWords(0, 0);
      AnySecretSpends(c, kind, secret, 0, root, note);
      assert Consumes(c, TwoNotes(c, note), SpendFirst(c, kind, secret, 0, root, note), note);
    }
  }

  // ---------- Second spends that go unnoticed ----------

  /**
   For every 63-bit note, any two secrets, tokens, roots and kinds of operation give two accepted
   spends of its one commitment. Unless both are deposits or neither is, and unless secrets,
   tokens and the roots of state-bound ones agree, only a hash collision makes them noticed.
   */
  lemma TwoSpends(c: Primitives, note: Note, kind: Kind, secret: Field, token: Field, root: RootWords,
                  kind': Kind, secret': Field, token': Field, root': RootWords)
    requires CastConstrains(c)
    requires note.amount < TWO_63
    ensures var live := TwoNotes(c, note);
            var step, step' := SpendFirst(c, kind, secret, token, root, note),
                               SpendFirst(c, kind', secret', token', root', note);
            && Accepted(c, live, step, 0) && Accepted(c, live, step', 0)
            && SpendAt(c, live, step, 0).commitment == SpendAt(c, live, step', 0).commitment == Commit(c, note)
            && ((kind.Depositing? != kind'.Depositing? || secret != secret' || token != token'
                 || (!kind.Depositing? && root != root')) ==>
                (NullifierAt(c, live, step, 0) == NullifierAt(c, live, step', 0) <==>
                 HashCollision(c, Preimage(SpendAt(c, live, step, 0)), Preimage(SpendAt(c, live, step', 0)))))
  {
    var live := TwoNotes(c, note);
    var step := SpendFirst(c, kind, secret, token, root, note);
    var step' := SpendFirst(c, kind', secret', token', root', note);
    AnySecretSpends(c, kind, secret, token, root, note);
    AnySecretSpends(c, kind', secret', token', root', note);
    PublishedAreHashes(c, live, step);
    PublishedAreHashes(c, live, step');
    FirstSpend(c, kind, secret, token, root, note);
    FirstSpend(c, kind', secret', token', root', note);
    hide Apply, Published, Spends, Preimage, Commit;
    SecondSpendNoticedIff(c, live, step, 0, live, step', 0);
  }

  lemma FirstSpend(c: Primitives, kind: Kind, secret: Field, token: Field, root: RootWords, note: Note)
    ensures var live, step := TwoNotes(c, note), SpendFirst(c, kind, secret, token, root, note);
            && InPlace(step, |live|) && |Spends(live, step)| > 0
            && Spends(live, step)[0].commitment == Commit(c, note)
  {
  }

  /** In particular under one root and token: two withdrawals with two secrets. */
  lemma TwoSecretsGoUnnoticed(c: Primitives, note: Note, token: Field, root: RootWords, secret: Field, secret': Field)
    requires CastConstrains(c)
    requires note.amount < TWO_63 && secret != secret'
    requires var cm := Commit(c, note);
             !HashCollision(c, StatePreimage(secret, cm, token, root), StatePreimage(secret', cm, token, root))
    ensures var cm := Commit(c, note);
            var r := Withdraw(c, token, AddressOf(c, secret), cm, root, secret, 0, note, 0);
            var r' := Withdraw(c, token, AddressOf(c, secret'), cm, root, secret', 0, note, 0);
            r.Some? && r'.Some? && r.value.nullifier != r'.value.nullifier
  {
    var cm := Commit(c, note);
    WithdrawAccepts(c, token, AddressOf(c, secret), cm, root, secret, 0, note, 0);
    WithdrawAccepts(c, token, AddressOf(c, secret'), cm, root, secret', 0, note, 0);
    SamePreimage(secret, cm, token, root, secret', cm, token, root);
  }

  /**
   A transfer does not bind its recipient: in a run that goes on with a withdrawal of the
   recipient's note, the sender's own secret is accepted, whatever the recipient's address.
   */
  lemma RecipientIsNotBound(c: Primitives, note: Note, secret: Field, recipient: Field, token: Field,
                            root: RootWords, root': RootWords, amount: Field,
                            recipientBlinding: Field, changeBlinding: Field)
    requires CastConstrains(c)
    requires amount <= note.amount < TWO_63
    ensures var sender := AddressOf(c, secret);
            var pay := TransferStep(0, token, sender, recipient, root, secret, amount, note,
                                    recipientBlinding, changeBlinding);
            var take := WithdrawStep(0, token, sender, root', secret, amount, Note(amount, recipientBlinding), 0);
            Run(c, [Commit(c, note)], [pay, take]).Some?
  {
    var sender, paid := AddressOf(c, secret), Note(amount, recipientBlinding);
    var pay := TransferStep(0, token, sender, recipient, root, secret, amount, note,
                            recipientBlinding, changeBlinding);
    var take := WithdrawStep(0, token, sender, root', secret, amount, paid, 0);
    var live := [Commit(c, note)];
    TransferAccepts(c, token, sender, recipient, live[0], root, secret, amount, note,
                    recipientBlinding, changeBlinding);
    WithdrawAccepts(c, token, sender, Commit(c, paid), root', secret, amount, paid, 0);
    hide Transfer, Withdraw, Commit;
    var next := Apply(c, live, pay).value;
    assert next[0] == Commit(c, paid);
    assert Apply(c, next, take).Some?;
    assert [pay, take][1..] == [take] && [take][1..] == [];
    assert Run(c, next, [take]).Some?;
  }
}
