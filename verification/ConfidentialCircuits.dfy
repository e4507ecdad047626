/**
 The confidential-value circuits as functions from public and private inputs to outputs;
 `None` means that no proof exists. Pedersen commitments and hashes are parameters.
 */
module ConfidentialCircuits {
  import opened Outcomes
  import opened Numerals
  import opened Hex
  import opened FieldValues
  import opened Requests

  /** An element of the BN254 scalar field. */
  type Field = x: int |
    0 <= x < 21888242871839275222246405745257275088548364400416034343698204186575808495617

  const COMMITMENT_DOMAIN: Field := 0x636f6d6d
  const KEY_DOMAIN: Field := 0x6b6579
  const MAX_BITS: nat := 64
  const AMOUNT_BITS: nat := 63
  const TWO_63: nat := 0x8000_0000_0000_0000
  const TWO_64: nat := 0x1_0000_0000_0000_0000

  /**
   What the circuits build on: the x-coordinate of the Pedersen commitment, the Pedersen hash,
   and what the cast of a field element to `u64` gives, if a proof with it exists at all.
   */
  datatype Primitives = Primitives(
    commitment: seq<Field> -> Field,
    hash: seq<Field> -> Field,
    cast: Field -> Option<nat>)

  // ---------- Amounts in bounded integers ----------

  /** The documented cast: it keeps 64-bit values and has no solution for others. */
  ghost predicate CastConstrains(c: Primitives) {
    forall value :: c.cast(value) == if value < 0x1_0000_0000_0000_0000 then Some(value) else None
  }

  /** A cast that keeps the low 64 bits of any value instead. */
  ghost predicate CastTruncates(c: Primitives) {
    forall value :: c.cast(value) == Some(value % 0x1_0000_0000_0000_0000)
  }

  predicate InBits(c: Primitives, value: Field, bits: nat) {
    && bits <= MAX_BITS
    && c.cast(value).Some?
    && (bits < 64 ==> c.cast(value).value < Pow(2, bits))
  }

  predicate NoOverdraw(c: Primitives, balance: Field, spend: Field) {
    && c.cast(balance).Some? && c.cast(spend).Some?
    && c.cast(spend).value <= c.cast(balance).value
  }

  /** Sums and differences of `u64` values are checked, so an overflow has no proof either. */
  function FromU64(n: int): Option<Field> {
    if 0 <= n < 0x1_0000_0000_0000_0000 then Some(n) else None
  }

  function AddBounded(c: Primitives, balance: Field, added: Field): Option<Field> {
    if !InBits(c, balance, AMOUNT_BITS) || !InBits(c, added, AMOUNT_BITS) then None
    else FromU64(c.cast(balance).value + c.cast(added).value)
  }

  function SubtractBounded(c: Primitives, balance: Field, spend: Field): Option<Field> {
    if !InBits(c, balance, AMOUNT_BITS) || !InBits(c, spend, AMOUNT_BITS) || !NoOverdraw(c, balance, spend) then None
    else FromU64(c.cast(balance).value - c.cast(spend).value)
  }

  lemma Pow2Of63()
    ensures Pow(2, 63) == TWO_63
  {
    assert Pow(2, 7) == 128;
    PowAdd(2, 7, 7);
    PowAdd(2, 14, 7);
    PowAdd(2, 21, 21);
    PowAdd(2, 42, 21);
  }

  /** Addition is exact in the integers, and possible exactly for two 63-bit amounts. */
  lemma AddBoundedExact(c: Primitives, balance: Field, added: Field)
    requires CastConstrains(c)
    ensures AddBounded(c, balance, added).Some? <==> balance < TWO_63 && added < TWO_63
    ensures AddBounded(c, balance, added).Some? ==>
              AddBounded(c, balance, added).value == (balance as int) + (added as int)
  {
    Pow2Of63();
  }

  /** Subtraction is exact, and possible exactly when nothing is overdrawn from 63 bits. */
  lemma SubtractBoundedExact(c: Primitives, balance: Field, spend: Field)
    requires CastConstrains(c)
    ensures SubtractBounded(c, balance, spend).Some? <==> spend <= balance < TWO_63
    ensures SubtractBounded(c, balance, spend).Some? ==>
              SubtractBounded(c, balance, spend).value == (balance as int) - (spend as int)
  {
    Pow2Of63();
  }

  // ---------- Commitments, ownership and nullifiers ----------

  datatype Note = Note(amount: Field, blinding: Field)

  function Commit(c: Primitives, note: Note): Field {
    c.commitment([COMMITMENT_DOMAIN, note.amount, note.blinding])
  }

  predicate OwnedBy(c: Primitives, address: Field, secret: Field) {
    address == c.hash([KEY_DOMAIN, secret])
  }

  /** The ledger root as the two public words a state-bound circuit takes. */
  datatype RootWords = RootWords(hi: Field, lo: Field)

  function TokenPreimage(secret: Field, commitment: Field, token: Field): seq<Field> {
    [secret, commitment, token]
  }

  function StatePreimage(secret: Field, commitment: Field, token: Field, root: RootWords): seq<Field> {
    [secret, commitment, token, root.hi, root.lo]
  }

  function NullifierForToken(c: Primitives, secret: Field, commitment: Field, token: Field): Field {
    c.hash(TokenPreimage(secret, commitment, token))
  }

  function NullifierForTokenState(c: Primitives, secret: Field, commitment: Field, token: Field,
                                  root: RootWords): Field
  {
    c.hash(StatePreimage(secret, commitment, token, root))
  }

  function ConsumeForToken(c: Primitives, commitment: Field, secret: Field, token: Field,
                           opening: Note): Option<Field>
  {
    if commitment != Commit(c, opening) then None else Some(NullifierForToken(c, secret, commitment, token))
  }

  function ConsumeForTokenState(c: Primitives, commitment: Field, secret: Field, token: Field,
                                root: RootWords, opening: Note): Option<Field>
  {
    if commitment != Commit(c, opening) then None
    else Some(NullifierForTokenState(c, secret, commitment, token, root))
  }

  // ---------- The circuits ----------

  function Register(c: Primitives, account: Field, secret: Field): Option<()> {
    if !OwnedBy(c, account, secret) then None else Some(())
  }

  datatype DepositOut = DepositOut(newCommitment: Field, nullifier: Field)

  function Deposit(c: Primitives, token: Field, account: Field, oldCommitment: Field,
                   secret: Field, opening: Note, amount: Field, blinding: Field): Option<DepositOut>
  {
    if !OwnedBy(c, account, secret) then None
    else
      var nullifier :- ConsumeForToken(c, oldCommitment, secret, token, opening);
      var newAmount :- AddBounded(c, opening.amount, amount);
      Some(DepositOut(Commit(c, Note(newAmount, blinding)), nullifier))
  }

  datatype MergeOut = MergeOut(merged: Field, nullifierA: Field, nullifierB: Field)

  function Merge(c: Primitives, token: Field, account: Field, commitmentA: Field, commitmentB: Field,
                 root: RootWords, secret: Field, a: Note, b: Note, blinding: Field): Option<MergeOut>
  {
    if !OwnedBy(c, account, secret) then None
    else
      var nullifierA :- ConsumeForTokenState(c, commitmentA, secret, token, root, a);
      var nullifierB :- ConsumeForTokenState(c, commitmentB, secret, token, root, b);
      var mergedAmount :- AddBounded(c, a.amount, b.amount);
      Some(MergeOut(Commit(c, Note(mergedAmount, blinding)), nullifierA, nullifierB))
  }

  datatype TransferOut = TransferOut(recipient: Field, change: Field, nullifier: Field)

  function Transfer(c: Primitives, token: Field, sender: Field, recipient: Field, oldCommitment: Field,
                    root: RootWords, secret: Field, amount: Field, opening: Note,
                    recipientBlinding: Field, changeBlinding: Field): Option<TransferOut>
  {
    if !OwnedBy(c, sender, secret) then None
    else
      var nullifier :- ConsumeForTokenState(c, oldCommitment, secret, token, root, opening);
      var changeAmount :- SubtractBounded(c, opening.amount, amount);
      Some(TransferOut(Commit(c, Note(amount, recipientBlinding)),
                       Commit(c, Note(changeAmount, changeBlinding)), nullifier))
  }

  datatype WithdrawOut = WithdrawOut(change: Field, nullifier: Field)

  function Withdraw(c: Primitives, token: Field, account: Field, commitment: Field, root: RootWords,
                    secret: Field, amount: Field, opening: Note, changeBlinding: Field): Option<WithdrawOut>
  {
    if !OwnedBy(c, account, secret) then None
    else
      var nullifier :- ConsumeForTokenState(c, commitment, secret, token, root, opening);
      var changeAmount :- SubtractBounded(c, opening.amount, amount);
      Some(WithdrawOut(Commit(c, Note(changeAmount, changeBlinding)), nullifier))
  }

  // ---------- What the building blocks stand for ----------

  /** Registering has a proof exactly for the secret that the address is the key hash of. */
  lemma RegisterAccepts(c: Primitives, account: Field, secret: Field)
    ensures Register(c, account, secret).Some? <==> account == c.hash([0x6b6579, secret])
  {
  }

  /** Whatever the cast does, no circuit has a proof for an account that is not the secret's own. */
  lemma OnlyOwnAccount(c: Primitives, token: Field, account: Field, commitment: Field, other: Field, root: RootWords,
                       secret: Field, a: Note, b: Note, amount: Field, x: Field, y: Field)
    ensures Register(c, account, secret).Some? ==> account == c.hash([0x6b6579, secret])
    ensures Deposit(c, token, account, commitment, secret, a, amount, x).Some? ==> account == c.hash([0x6b6579, secret])
    ensures Merge(c, token, account, commitment, other, root, secret, a, b, x).Some? ==>
              account == c.hash([0x6b6579, secret])
    ensures Transfer(c, token, account, other, commitment, root, secret, amount, a, x, y).Some? ==>
              account == c.hash([0x6b6579, secret])
    ensures Withdraw(c, token, account, commitment, root, secret, amount, a, x).Some? ==>
              account == c.hash([0x6b6579, secret])
  {
    hide Commit, AddBounded, SubtractBounded;
  }

  /** A commitment covers amount and blinding: two notes share one exactly when equal or by a collision. */
  lemma CommitmentCovers(c: Primitives, a: Note, b: Note)
    ensures Commit(c, a) == Commit(c, b) <==>
            || a == b
            || (a != b
                && c.commitment([0x636f6d6d, a.amount, a.blinding]) == c.commitment([0x636f6d6d, b.amount, b.blinding]))
  {
  }

  /** A value fits a width of at most 64 bits exactly when it is below that power of two. */
  lemma InBitsIff(c: Primitives, value: Field, bits: nat)
    requires CastConstrains(c)
    ensures InBits(c, value, bits) <==> bits <= 64 && value < Pow(2, bits)
  {
    TwoTo64();
    if bits < 64 {
      PowMonotone(2, bits, 64);
    }
  }

  lemma TwoTo64()
    ensures Pow(2, 64) == TWO_64
  {
    Pow2Of63();
    PowAdd(2, 63, 1);
    assert Pow(2, 1) == 2;
  }

  /** The overdraw guard compares the two numbers, both within 64 bits. */
  lemma NoOverdrawIff(c: Primitives, balance: Field, spend: Field)
    requires CastConstrains(c)
    ensures NoOverdraw(c, balance, spend) <==> spend <= balance < TWO_64
  {
  }

  // ---------- Exactly when a proof exists ----------

  /**
   A deposit has a proof exactly for the owner, a matching opening and two 63-bit amounts; its
   new commitment opens to the integer sum.
   */
  lemma DepositAccepts(c: Primitives, token: Field, account: Field, commitment: Field,
                       secret: Field, opening: Note, amount: Field, blinding: Field)
    requires CastConstrains(c)
    ensures var r := Deposit(c, token, account, commitment, secret, opening, amount, blinding);
            && (r.Some? <==> account == c.hash([0x6b6579, secret]) && commitment == Commit(c, opening)
                             && opening.amount < TWO_63 && amount < TWO_63)
            && (r.Some? ==> r.value.newCommitment == Commit(c, Note(opening.amount + amount, blinding)))
    ensures var r := Deposit(c, token, account, commitment, secret, opening, amount, blinding);
            r.Some? ==> r.value.nullifier == c.hash([secret, commitment, token])
  {
    AddBoundedExact(c, opening.amount, amount);
  }

  lemma MergeAccepts(c: Primitives, token: Field, account: Field, commitmentA: Field, commitmentB: Field,
                     root: RootWords, secret: Field, a: Note, b: Note, blinding: Field)
    requires CastConstrains(c)
    ensures var r := Merge(c, token, account, commitmentA, commitmentB, root, secret, a, b, blinding);
            && (r.Some? <==> account == c.hash([0x6b6579, secret])
                             && commitmentA == Commit(c, a) && commitmentB == Commit(c, b)
                             && a.amount < TWO_63 && b.amount < TWO_63)
            && (r.Some? ==> r.value.merged == Commit(c, Note(a.amount + b.amount, blinding)))
    ensures var r := Merge(c, token, account, commitmentA, commitmentB, root, secret, a, b, blinding);
            r.Some? ==>
              && r.value.nullifierA == c.hash([secret, commitmentA, token, root.hi, root.lo])
              && r.value.nullifierB == c.hash([secret, commitmentB, token, root.hi, root.lo])
  {
    AddBoundedExact(c, a.amount, b.amount);
  }

  /** A transfer splits the old amount: what the recipient and the change open to add up to it. */
  lemma TransferAccepts(c: Primitives, token: Field, sender: Field, recipient: Field, commitment: Field,
                        root: RootWords, secret: Field, amount: Field, opening: Note,
                        recipientBlinding: Field, changeBlinding: Field)
    requires CastConstrains(c)
    ensures var r := Transfer(c, token, sender, recipient, commitment, root, secret, amount, opening,
                              recipientBlinding, changeBlinding);
            && (r.Some? <==> sender == c.hash([0x6b6579, secret]) && commitment == Commit(c, opening)
                             && amount <= opening.amount < TWO_63)
            && (r.Some? ==> r.value.recipient == Commit(c, Note(amount, recipientBlinding))
                            && r.value.change == Commit(c, Note(opening.amount - amount, changeBlinding)))
    ensures var r := Transfer(c, token, sender, recipient, commitment, root, secret, amount, opening,
                              recipientBlinding, changeBlinding);
            r.Some? ==> r.value.nullifier == c.hash([secret, commitment, token, root.hi, root.lo])
  {
    SubtractBoundedExact(c, opening.amount, amount);
  }

  lemma WithdrawAccepts(c: Primitives, token: Field, account: Field, commitment: Field, root: RootWords,
                        secret: Field, amount: Field, opening: Note, changeBlinding: Field)
    requires CastConstrains(c)
    ensures var r := Withdraw(c, token, account, commitment, root, secret, amount, opening, changeBlinding);
            && (r.Some? <==> account == c.hash([0x6b6579, secret]) && commitment == Commit(c, opening)
                             && amount <= opening.amount < TWO_63)
            && (r.Some? ==> r.value.change == Commit(c, Note(opening.amount - amount, changeBlinding)))
    ensures var r := Withdraw(c, token, account, commitment, root, secret, amount, opening, changeBlinding);
            r.Some? ==> r.value.nullifier == c.hash([secret, commitment, token, root.hi, root.lo])
  {
    SubtractBoundedExact(c, opening.amount, amount);
  }

  /**
   What rests on the cast. If it only truncated, a transfer would have a proof for every amount
   whose low 64 bits can be paid; the recipient's commitment holds the whole amount all the
   same, so value is conserved exactly when both amounts fit 64 bits alike.
   */
  lemma TruncatingTransfer(c: Primitives, token: Field, sender: Field, recipient: Field, commitment: Field,
                           root: RootWords, secret: Field, amount: Field, opening: Note,
                           recipientBlinding: Field, changeBlinding: Field)
    requires CastTruncates(c)
    ensures var r := Transfer(c, token, sender, recipient, commitment, root, secret, amount, opening,
                              recipientBlinding, changeBlinding);
            var held, paid := opening.amount % TWO_64, amount % TWO_64;
            && (r.Some? <==> OwnedBy(c, sender, secret) && commitment == Commit(c, opening)
                             && paid <= held < TWO_63)
            && (r.Some? ==> r.value.recipient == Commit(c, Note(amount, recipientBlinding))
                            && r.value.change == Commit(c, Note(held - paid, changeBlinding))
                            && (amount + (held - paid) == opening.amount <==>
                                amount / TWO_64 == opening.amount / TWO_64))
  {
    Pow2Of63();
  }

  /** Such a transfer pays `2^64 + 5` out of a note of 1000 and leaves 995. */
  lemma TruncatingTransferMints(c: Primitives, token: Field, recipient: Field, root: RootWords, secret: Field,
                                blinding: Field)
    requires CastTruncates(c)
    ensures var note := Note(1000, blinding);
            var r := Transfer(c, token, c.hash([KEY_DOMAIN, secret]), recipient, Commit(c, note), root, secret,
                              TWO_64 + 5, note, blinding, blinding);
            && r.Some?
            && r.value.recipient == Commit(c, Note(TWO_64 + 5, blinding))
            && r.value.change == Commit(c, Note(995, blinding))
  {
    TruncatingTransfer(c, token, c.hash([KEY_DOMAIN, secret]), recipient, Commit(c, Note(1000, blinding)), root,
                       secret, TWO_64 + 5, Note(1000, blinding), blinding, blinding);
  }

  // ---------- Nullifiers ----------

  /** Two different inputs with one hash. */
  predicate HashCollision(c: Primitives, x: seq<Field>, y: seq<Field>) {
    x != y && c.hash(x) == c.hash(y)
  }

  /** A 256-bit root as circuit inputs: each half is far below the modulus. */
  function WordsOfRoot(root: Digest256): RootWords {
    var (hi, lo) := RootHalves(root);
    RootHalvesSplit(root);
    RootWords(Value(hi), Value(lo))
  }

  /** The first word holds the high half of the root and the second the low one. */
  lemma WordsOfRootValue(root: Digest256)
    ensures var words := WordsOfRoot(root);
            words.hi < TWO_128 && words.lo < TWO_128 && words.hi * TWO_128 + words.lo == HexValue(root)
  {
    RootHalvesSplit(root);
  }

  lemma WordsOfRootInjective(a: Digest256, b: Digest256)
    ensures WordsOfRoot(a) == WordsOfRoot(b) <==> a == b
  {
    var (hi, lo) := RootHalves(a);
    var (hi', lo') := RootHalves(b);
    RootHalvesSplit(a);
    RootHalvesSplit(b);
    if WordsOfRoot(a) == WordsOfRoot(b) {
      ValueInjective(hi, hi');
      ValueInjective(lo, lo');
      RootHalvesInjective(a, b);
    }
  }

  /**
   Two state-bound spends publish one nullifier exactly when secret, commitment, token and the
   full 256-bit root all agree, or else their preimages are a hash collision.
   */
  lemma SameStateNullifier(c: Primitives, secret: Field, commitment: Field, token: Field, root: Digest256,
                           secret': Field, commitment': Field, token': Field, root': Digest256)
    ensures (NullifierForTokenState(c, secret, commitment, token, WordsOfRoot(root))
             == NullifierForTokenState(c, secret', commitment', token', WordsOfRoot(root'))) <==>
            || (secret == secret' && commitment == commitment' && token == token' && root == root')
            || HashCollision(c, StatePreimage(secret, commitment, token, WordsOfRoot(root)),
                                StatePreimage(secret', commitment', token', WordsOfRoot(root')))
  {
    hide WordsOfRoot;
    WordsOfRootInjective(root, root');
    SamePreimage(secret, commitment, token, WordsOfRoot(root), secret', commitment', token', WordsOfRoot(root'));
  }

  lemma SamePreimage(secret: Field, commitment: Field, token: Field, root: RootWords,
                     secret': Field, commitment': Field, token': Field, root': RootWords)
    ensures (StatePreimage(secret, commitment, token, root) == StatePreimage(secret', commitment', token', root'))
       <==> secret == secret' && commitment == commitment' && token == token' && root == root'
  {
    var x, y := StatePreimage(secret, commitment, token, root), StatePreimage(secret', commitment', token', root');
    if x == y {
      assert x[0] == y[0] && x[1] == y[1] && x[2] == y[2] && x[3] == y[3] && x[4] == y[4];
    }
  }

  /** A deposit's nullifier and a state-bound one coincide only by a hash collision. */
  lemma NullifierKindsApart(c: Primitives, secret: Field, commitment: Field, token: Field,
                            secret': Field, commitment': Field, token': Field, root: RootWords)
    ensures (NullifierForToken(c, secret, commitment, token)
             == NullifierForTokenState(c, secret', commitment', token', root))
       <==> HashCollision(c, TokenPreimage(secret, commitment, token),
                             StatePreimage(secret', commitment', token', root))
  {
    assert |TokenPreimage(secret, commitment, token)| != |StatePreimage(secret', commitment', token', root)|;
  }

  /** A merge's two nullifiers coincide exactly for equal commitments, or by a hash collision. */
  lemma MergeNullifiersCoincide(c: Primitives, token: Field, account: Field, commitmentA: Field,
                                commitmentB: Field, root: RootWords, secret: Field, a: Note, b: Note,
                                blinding: Field)
    requires Merge(c, token, account, commitmentA, commitmentB, root, secret, a, b, blinding).Some?
    ensures var out := Merge(c, token, account, commitmentA, commitmentB, root, secret, a, b, blinding).value;
            out.nullifierA == out.nullifierB <==>
            || commitmentA == commitmentB
            || HashCollision(c, StatePreimage(secret, commitmentA, token, root),
                                StatePreimage(secret, commitmentB, token, root))
  {
    SamePreimage(secret, commitmentA, token, root, secret, commitmentB, token, root);
  }

  /**
   Naming one commitment twice satisfies the merge circuit for every 63-bit amount: the output
   opens to twice the amount and the nullifiers are equal, so refusing it is left to the ledger.
   */
  lemma SelfMergeDoubles(c: Primitives, token: Field, account: Field, root: RootWords, secret: Field,
                         note: Note, blinding: Field)
    requires CastConstrains(c) && OwnedBy(c, account, secret)
    ensures var cm := Commit(c, note);
            var r := Merge(c, token, account, cm, cm, root, secret, note, note, blinding);
            && (r.Some? <==> note.amount < TWO_63)
            && (r.Some? ==> r.value.merged == Commit(c, Note(2 * note.amount, blinding))
                            && r.value.nullifierA == r.value.nullifierB)
  {
    MergeAccepts(c, token, account, Commit(c, note), Commit(c, note), root, secret, note, note, blinding);
  }
}
