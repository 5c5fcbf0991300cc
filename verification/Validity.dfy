/** What makes a chain valid, and what its last hash says about it (src/blockchain.c). */
module Validity {
  import opened Bytes
  import opened Ledger
  import opened ReturnCodes

  const ZERO_HASH: Digest := Zeros(DIGEST_LENGTH)

  /** The hash begins with `difficulty` zero bytes, so it has at least that many bytes. */
  predicate MeetsDifficulty(difficulty: nat, hash: Digest) {
    difficulty <= DIGEST_LENGTH && forall i :: 0 <= i < difficulty ==> hash[i] == 0
  }

  predicate IsMinting(t: Transaction) {
    t.amount == AMOUNT_GENERATED_DURING_MINTING && t.sender == t.recipient
  }

  predicate IsGenesis(b: Block) {
    b.transactions == [] && b.proofOfWork == GENESIS_BLOCK_PROOF_OF_WORK && b.previousBlockHash == ZERO_HASH
  }

  predicate AllSigned(w: World, ts: seq<Transaction>) {
    forall t :: t in ts ==> CheckSignature(w, t) == Accepted
  }

  /** `b` may stand right after `previous`. */
  predicate MayFollow(w: World, difficulty: nat, previous: Block, b: Block) {
    && MeetsDifficulty(difficulty, Hash(w, b))
    && b.previousBlockHash == Hash(w, previous)
    && b.transactions != []
    && IsMinting(b.transactions[0])
    && AllSigned(w, b.transactions)
  }

  predicate ValidAt(w: World, c: Chain, i: nat)
    requires i < |c.blocks|
  {
    if i == 0 then IsGenesis(c.blocks[0]) else MayFollow(w, c.difficulty, c.blocks[i - 1], c.blocks[i])
  }

  predicate ValidChain(w: World, c: Chain) {
    forall i :: 0 <= i < |c.blocks| ==> ValidAt(w, c, i)
  }

  /** The answer of `blockchain_verify`. The position stands for the pointer to the first invalid
      block, `None` when that pointer is left unfilled. `Undefined` is no answer of the program: it marks
      a comparison of more bytes than a digest has, or a check of more bytes than a signature has, after
      which C defines no behaviour. */
  datatype Verdict = Valid | Invalid(first: Option<nat>) | VerifyFailed(code: ReturnCode) | Undefined

  /** The least position at or after `from` whose block fails, or the length of the chain. */
  function FirstBad(w: World, c: Chain, from: nat): (i: nat)
    requires from <= |c.blocks|
    ensures from <= i <= |c.blocks|
    decreases |c.blocks| - from
  {
    if from < |c.blocks| && ValidAt(w, c, from) then FirstBad(w, c, from + 1) else from
  }

  lemma {:induction false} FirstBadIsLeast(w: World, c: Chain, from: nat)
    requires from <= |c.blocks|
    ensures var i := FirstBad(w, c, from);
            && (forall k :: from <= k < i ==> ValidAt(w, c, k))
            && (i < |c.blocks| ==> !ValidAt(w, c, i))
    decreases |c.blocks| - from
  {
    hide ValidAt;
    if from < |c.blocks| && ValidAt(w, c, from) {
      FirstBadIsLeast(w, c, from + 1);
    }
  }

  /** The position of the first transaction whose signature is not accepted. */
  function FirstUnsigned(w: World, ts: seq<Transaction>): (k: nat)
    ensures k <= |ts|
    ensures forall j :: 0 <= j < k ==> CheckSignature(w, ts[j]) == Accepted
    ensures k < |ts| ==> CheckSignature(w, ts[k]) != Accepted
  {
    if ts != [] && CheckSignature(w, ts[0]) == Accepted then 1 + FirstUnsigned(w, ts[1..]) else 0
  }

  /** What is reported about the first failing block. */
  function VerdictAt(w: World, c: Chain, i: nat): Verdict
    requires i < |c.blocks|
  {
    var b := c.blocks[i];
    if i > 0 && c.difficulty > DIGEST_LENGTH then
      Undefined
    else if i == 0 || !MeetsDifficulty(c.difficulty, Hash(w, b)) || b.previousBlockHash != Hash(w, c.blocks[i - 1]) then
      Invalid(Some(i))
    else if b.transactions == [] then
      Invalid(None)
    else if !IsMinting(b.transactions[0]) then
      Invalid(Some(i))
    else
      var k := FirstUnsigned(w, b.transactions);
      if k == |b.transactions| then
        Invalid(Some(i))
      else
        match CheckSignature(w, b.transactions[k])
        case CallFailed => VerifyFailed(OpensslFunction)
        case ReadsPastArray => Undefined
        case Rejected => Invalid(Some(i))
  }

  function VerdictOf(w: World, c: Chain): Verdict {
    var i := FirstBad(w, c, 0);
    if i == |c.blocks| then Valid else VerdictAt(w, c, i)
  }

  lemma VerdictIsValidity(w: World, c: Chain)
    ensures VerdictOf(w, c) == Valid <==> ValidChain(w, c)
  {
    hide ValidAt;
    FirstBadIsLeast(w, c, 0);
  }

  // The four conditions that include/blockchain.h documents, each over the whole chain.

  predicate ProofsOfWork(w: World, c: Chain) {
    && (c.blocks != [] ==> c.blocks[0].proofOfWork == GENESIS_BLOCK_PROOF_OF_WORK)
    && forall i :: 1 <= i < |c.blocks| ==> MeetsDifficulty(c.difficulty, Hash(w, c.blocks[i]))
  }

  predicate Linked(w: World, c: Chain) {
    && (c.blocks != [] ==> c.blocks[0].previousBlockHash == ZERO_HASH)
    && forall i, j :: 0 <= i && j == i + 1 < |c.blocks| ==> c.blocks[j].previousBlockHash == Hash(w, c.blocks[i])
  }

  predicate Minted(c: Chain) {
    forall i :: 1 <= i < |c.blocks| ==> c.blocks[i].transactions != [] && IsMinting(c.blocks[i].transactions[0])
  }

  predicate Signed(w: World, c: Chain) {
    forall b, t :: b in c.blocks && t in b.transactions ==> CheckSignature(w, t) == Accepted
  }

  predicate Documented(w: World, c: Chain) {
    ProofsOfWork(w, c) && Linked(w, c) && Minted(c) && Signed(w, c)
  }

  lemma ValidImpliesDocumented(w: World, c: Chain)
    requires ValidChain(w, c)
    ensures Documented(w, c) && (c.blocks == [] || c.blocks[0].transactions == [])
  {
    hide Hash, MeetsDifficulty;
    if c.blocks != [] {
      assert ValidAt(w, c, 0);
    }
    assert ProofsOfWork(w, c) && Minted(c) by {
      forall i | 1 <= i < |c.blocks|
        ensures MeetsDifficulty(c.difficulty, Hash(w, c.blocks[i]))
        ensures c.blocks[i].transactions != [] && IsMinting(c.blocks[i].transactions[0])
      {
        assert ValidAt(w, c, i);
      }
    }
    assert Linked(w, c) by {
      forall i, j | 0 <= i && j == i + 1 < |c.blocks|
        ensures c.blocks[j].previousBlockHash == Hash(w, c.blocks[i])
      {
        assert ValidAt(w, c, j);
      }
    }
    forall b, t | b in c.blocks && t in b.transactions
      ensures CheckSignature(w, t) == Accepted
    {
      var i :| 0 <= i < |c.blocks| && c.blocks[i] == b;
      assert ValidAt(w, c, i);
    }
  }

  /** The code accepts exactly the documented chains whose first block has no transactions. */
  lemma ValidityIsDocumentedValidity(w: World, c: Chain)
    ensures ValidChain(w, c) <==> Documented(w, c) && (c.blocks == [] || c.blocks[0].transactions == [])
  {
    if ValidChain(w, c) {
      ValidImpliesDocumented(w, c);
    } else {
      hide Hash, MeetsDifficulty;
      var i :| 0 <= i < |c.blocks| && !ValidAt(w, c, i);
      assert c.blocks[i] in c.blocks;
      assert Linked(w, c) && i > 0 ==> c.blocks[i].previousBlockHash == Hash(w, c.blocks[i - 1]);
    }
  }

  /** Block `i` passes the checks before the one for an empty transaction list, and fails that one. */
  predicate StopsAtNoTransactions(w: World, c: Chain, i: nat)
    requires i < |c.blocks|
  {
    && i > 0
    && MeetsDifficulty(c.difficulty, Hash(w, c.blocks[i]))
    && c.blocks[i].previousBlockHash == Hash(w, c.blocks[i - 1])
    && c.blocks[i].transactions == []
  }

  /** Block `i` passes the checks before its signatures, and the first of these not accepted is longer
      than its array. */
  predicate StopsAtLongSignature(w: World, c: Chain, i: nat)
    requires i < |c.blocks|
  {
    var b := c.blocks[i];
    && i > 0
    && MeetsDifficulty(c.difficulty, Hash(w, b))
    && b.previousBlockHash == Hash(w, c.blocks[i - 1])
    && b.transactions != [] && IsMinting(b.transactions[0])
    && exists k :: 0 <= k < |b.transactions| && CheckSignature(w, b.transactions[k]) == ReadsPastArray
                   && forall j :: 0 <= j < k ==> CheckSignature(w, b.transactions[j]) == Accepted
  }

  lemma VerdictAtFailingBlock(w: World, c: Chain, i: nat)
    requires i < |c.blocks| && !ValidAt(w, c, i)
    requires forall t :: t in c.blocks[i].transactions ==> CheckSignature(w, t) != CallFailed
    ensures VerdictAt(w, c, i) ==
            if i > 0 && (c.difficulty > DIGEST_LENGTH || StopsAtLongSignature(w, c, i)) then Undefined
            else Invalid(if StopsAtNoTransactions(w, c, i) then None else Some(i))
  {
    hide Hash, HashedBytes, CheckSignature, IsMinting, IsGenesis;
    var ts := c.blocks[i].transactions;
    var k := FirstUnsigned(w, ts);
    assert k < |ts| ==> ts[k] in ts;
    hide FirstUnsigned;
  }

  /** With no failing signature call, the verdict is validity, and the block reported is the first
      that fails, unless that block is reported only by having no transactions. For a later block
      nothing is defined when the difficulty is beyond the digest's length, or the check that fails is
      of a signature longer than its array. */
  lemma VerdictWithWorkingSignatureCalls(w: World, c: Chain)
    requires forall b, t :: b in c.blocks && t in b.transactions ==> CheckSignature(w, t) != CallFailed
    ensures VerdictOf(w, c) == Valid <==> ValidChain(w, c)
    ensures !ValidChain(w, c) ==>
              exists i :: 0 <= i < |c.blocks|
                && !ValidAt(w, c, i) && (forall k :: 0 <= k < i ==> ValidAt(w, c, k))
                && VerdictOf(w, c) ==
                   if i > 0 && (c.difficulty > DIGEST_LENGTH || StopsAtLongSignature(w, c, i)) then Undefined
                   else Invalid(if StopsAtNoTransactions(w, c, i) then None else Some(i))
  {
    hide ValidAt, VerdictAt, StopsAtLongSignature, StopsAtNoTransactions, CheckSignature;
    VerdictIsValidity(w, c);
    var i := FirstBad(w, c, 0);
    FirstBadIsLeast(w, c, 0);
    if i < |c.blocks| {
      assert c.blocks[i] in c.blocks;
      VerdictAtFailingBlock(w, c, i);
    }
  }

  // The same in terms of the platform's own answers.

  predicate BeginsWithZeros(difficulty: nat, hash: Digest) {
    difficulty <= 32 && forall k :: 0 <= k < difficulty ==> hash[k] == 0
  }

  /** The platform accepts the signature, of no more bytes than there are. */
  predicate PlatformAccepts(w: World, t: Transaction) {
    w.checkSignature(t) == Accepted && t.signatureLength <= 512
  }

  /** A later block meets the conditions on its hash and on its link. */
  predicate ProvenAndLinked(w: World, c: Chain, i: nat)
    requires 0 < i < |c.blocks|
  {
    && BeginsWithZeros(c.difficulty, w.sha256(HashedBytes(w, c.blocks[i])))
    && c.blocks[i].previousBlockHash == w.sha256(HashedBytes(w, c.blocks[i - 1]))
  }

  /** A later block begins with a transaction that mints one coin for its sender. */
  predicate MintsFirst(b: Block) {
    b.transactions != [] && b.transactions[0].amount == 1 && b.transactions[0].sender == b.transactions[0].recipient
  }

  predicate Sound(w: World, c: Chain, i: nat)
    requires i < |c.blocks|
  {
    var b := c.blocks[i];
    if i == 0 then
      b.transactions == [] && b.proofOfWork == 2017 && forall k :: 0 <= k < 32 ==> b.previousBlockHash[k] == 0
    else
      && ProvenAndLinked(w, c, i)
      && MintsFirst(b)
      && forall t :: t in b.transactions ==> PlatformAccepts(w, t)
  }

  lemma AcceptanceIsThePlatforms(w: World, t: Transaction)
    ensures CheckSignature(w, t) == Accepted <==> PlatformAccepts(w, t)
    ensures CheckSignature(w, t) != Accepted ==>
              CheckSignature(w, t) == if w.checkSignature(t) == Accepted then ReadsPastArray else w.checkSignature(t)
  {
  }

  lemma SoundIsValidAt(w: World, c: Chain, i: nat)
    requires i < |c.blocks|
    ensures ValidAt(w, c, i) <==> Sound(w, c, i)
  {
    hide HashedBytes;
    forall t
      ensures CheckSignature(w, t) == Accepted <==> PlatformAccepts(w, t)
    {
      AcceptanceIsThePlatforms(w, t);
    }
    hide CheckSignature, PlatformAccepts;
    var b := c.blocks[i];
    assert (forall k :: 0 <= k < 32 ==> b.previousBlockHash[k] == 0) <==> b.previousBlockHash == ZERO_HASH;
  }

  /** A chain is accepted exactly when each block is sound: the first one empty with its fixed proof of
      work, the others proven, linked, minting, and with every signature accepted by the platform. */
  lemma ValidityIsSoundness(w: World, c: Chain)
    ensures ValidChain(w, c) <==> forall i :: 0 <= i < |c.blocks| ==> Sound(w, c, i)
    ensures VerdictOf(w, c) == Valid <==> forall i :: 0 <= i < |c.blocks| ==> Sound(w, c, i)
  {
    hide ValidAt, Sound;
    forall i | 0 <= i < |c.blocks|
      ensures ValidAt(w, c, i) <==> Sound(w, c, i)
    {
      SoundIsValidAt(w, c, i);
    }
    VerdictIsValidity(w, c);
  }

  predicate FirstUnsound(w: World, c: Chain, i: nat) {
    i < |c.blocks| && !Sound(w, c, i) && forall k :: 0 <= k < i ==> Sound(w, c, k)
  }

  lemma FirstUnsoundIsFirstBad(w: World, c: Chain, i: nat)
    requires FirstUnsound(w, c, i)
    ensures FirstBad(w, c, 0) == i
  {
    hide ValidAt, Sound;
    FirstBadIsLeast(w, c, 0);
    forall k | 0 <= k < |c.blocks|
      ensures ValidAt(w, c, k) <==> Sound(w, c, k)
    {
      SoundIsValidAt(w, c, k);
    }
  }

  /** What is reported of the first unsound block when it fails before its signatures. */
  lemma VerdictOnHeader(w: World, c: Chain, i: nat)
    requires FirstUnsound(w, c, i)
    ensures i == 0 ==> VerdictOf(w, c) == Invalid(Some(0))
    ensures i > 0 && c.difficulty > 32 ==> VerdictOf(w, c) == Undefined
    ensures i > 0 && c.difficulty <= 32 && !ProvenAndLinked(w, c, i) ==> VerdictOf(w, c) == Invalid(Some(i))
    ensures i > 0 && ProvenAndLinked(w, c, i) && c.blocks[i].transactions == [] ==> VerdictOf(w, c) == Invalid(None)
    ensures i > 0 && ProvenAndLinked(w, c, i) && c.blocks[i].transactions != [] && !MintsFirst(c.blocks[i]) ==>
              VerdictOf(w, c) == Invalid(Some(i))
  {
    hide HashedBytes, Sound, ValidAt;
    FirstUnsoundIsFirstBad(w, c, i);
  }

  /** Transaction `k` is the first one whose signature the platform does not accept. */
  predicate FirstNotAccepted(w: World, ts: seq<Transaction>, k: nat) {
    k < |ts| && !PlatformAccepts(w, ts[k]) && forall j :: 0 <= j < k ==> PlatformAccepts(w, ts[j])
  }

  lemma FirstNotAcceptedIsFirstUnsigned(w: World, ts: seq<Transaction>, k: nat)
    requires FirstNotAccepted(w, ts, k)
    ensures FirstUnsigned(w, ts) == k
  {
    forall t
      ensures CheckSignature(w, t) == Accepted <==> PlatformAccepts(w, t)
    {
      AcceptanceIsThePlatforms(w, t);
    }
    hide CheckSignature, PlatformAccepts;
    assert forall j :: 0 <= j < |ts| ==> (CheckSignature(w, ts[j]) == Accepted <==> PlatformAccepts(w, ts[j]));
  }

  /** What is reported when it fails at its signatures: the platform's answer on the first signature that
      is not accepted decides, and a failing call is an error of the whole verification. */
  lemma VerdictOnSignatures(w: World, c: Chain, i: nat, k: nat)
    requires FirstUnsound(w, c, i) && i > 0 && ProvenAndLinked(w, c, i) && MintsFirst(c.blocks[i])
    requires FirstNotAccepted(w, c.blocks[i].transactions, k)
    ensures VerdictOf(w, c) ==
            match w.checkSignature(c.blocks[i].transactions[k])
            case CallFailed => VerifyFailed(OpensslFunction)
            case Rejected => Invalid(Some(i))
            case _ => Undefined
  {
    hide HashedBytes, Sound, ValidAt, PlatformAccepts;
    FirstUnsoundIsFirstBad(w, c, i);
    FirstNotAcceptedIsFirstUnsigned(w, c.blocks[i].transactions, k);
    AcceptanceIsThePlatforms(w, c.blocks[i].transactions[k]);
  }

  /** Those are all the cases. */
  lemma SomeSignatureIsNotAccepted(w: World, c: Chain, i: nat) returns (k: nat)
    requires FirstUnsound(w, c, i) && i > 0 && ProvenAndLinked(w, c, i) && MintsFirst(c.blocks[i])
    ensures FirstNotAccepted(w, c.blocks[i].transactions, k)
  {
    hide HashedBytes, ProvenAndLinked;
    var ts := c.blocks[i].transactions;
    k := FirstUnsigned(w, ts);
    forall t
      ensures CheckSignature(w, t) == Accepted <==> PlatformAccepts(w, t)
    {
      AcceptanceIsThePlatforms(w, t);
    }
    hide CheckSignature, PlatformAccepts, FirstUnsigned;
    assert k == |ts| ==> forall t :: t in ts ==> PlatformAccepts(w, t);
  }

  lemma PrefixesAreValid(w: World, c: Chain, n: nat)
    requires ValidChain(w, c) && n <= |c.blocks|
    ensures ValidChain(w, c.(blocks := c.blocks[..n]))
  {
    forall i | 0 <= i < n
      ensures ValidAt(w, c.(blocks := c.blocks[..n]), i)
    {
      assert ValidAt(w, c, i);
    }
  }

  /** A non-empty chain extended by a block is valid exactly when it was valid and the block may follow its last one. */
  lemma ExtensionValidity(w: World, c: Chain, b: Block)
    requires c.blocks != []
    ensures ValidChain(w, c.(blocks := c.blocks + [b])) <==>
            ValidChain(w, c) && MayFollow(w, c.difficulty, c.blocks[|c.blocks| - 1], b)
  {
    var e := c.(blocks := c.blocks + [b]);
    assert forall i :: 0 <= i < |c.blocks| ==> e.blocks[i] == c.blocks[i];
    if ValidChain(w, e) {
      PrefixesAreValid(w, e, |c.blocks|);
      assert e.blocks[..|c.blocks|] == c.blocks;
      assert ValidAt(w, e, |c.blocks|);
    }
    if ValidChain(w, c) && MayFollow(w, c.difficulty, c.blocks[|c.blocks| - 1], b) {
      forall i | 0 <= i < |e.blocks|
        ensures ValidAt(w, e, i)
      {
        if i < |c.blocks| {
          assert ValidAt(w, c, i);
        }
      }
    }
  }

  /** A genesis block alone is a valid chain at every difficulty, and nothing else starts one. */
  lemma GenesisStartsEveryChain(w: World, difficulty: uint64, b: Block)
    ensures ValidChain(w, Chain(difficulty, [b])) <==> IsGenesis(b)
  {
    var c := Chain(difficulty, [b]);
    assert ValidAt(w, c, 0) <==> IsGenesis(b);
  }

  /** Two different blocks, hashed from two different byte strings, with one hash. */
  predicate Collide(w: World, b: Block, c: Block) {
    b != c && HashedBytes(w, b) != HashedBytes(w, c) && Hash(w, b) == Hash(w, c)
  }

  lemma LaterBlocksHaveTransactions(w: World, c: Chain, i: nat)
    requires i < |c.blocks| && ValidAt(w, c, i)
    ensures i == 0 <==> c.blocks[i].transactions == []
    ensures i > 0 ==> c.blocks[i].previousBlockHash == Hash(w, c.blocks[i - 1])
  {
  }

  /** Valid chains that end in the same hash have the same blocks, or they contain two different
      blocks with the same hash, at the positions returned. */
  lemma {:induction false} TipFixesHistory(w: World, c: Chain, d: Chain) returns (i: nat, j: nat)
    requires ValidChain(w, c) && ValidChain(w, d)
    requires c.blocks != [] && d.blocks != []
    requires Hash(w, c.blocks[|c.blocks| - 1]) == Hash(w, d.blocks[|d.blocks| - 1])
    ensures c.blocks == d.blocks || (i < |c.blocks| && j < |d.blocks| && Collide(w, c.blocks[i], d.blocks[j]))
    decreases |c.blocks|
  {
    hide MayFollow, HashedBytes;
    i, j := |c.blocks| - 1, |d.blocks| - 1;
    var b, e := c.blocks[i], d.blocks[j];
    assert ValidAt(w, c, i) && ValidAt(w, d, j);
    LaterBlocksHaveTransactions(w, c, i);
    LaterBlocksHaveTransactions(w, d, j);
    if b != e {
      if HashedBytes(w, b) == HashedBytes(w, e) {
        HashedBytesInjective(w, b, e);
      }
    } else if i > 0 && j > 0 {
      PrefixesAreValid(w, c, i);
      PrefixesAreValid(w, d, j);
      ghost var i', j' := TipFixesHistory(w, c.(blocks := c.blocks[..i]), d.(blocks := d.blocks[..j]));
      assert c.blocks == c.blocks[..i] + [b] && d.blocks == d.blocks[..j] + [e];
      i, j := i', j';
    } else {
      assert c.blocks == [b] && d.blocks == [e];
    }
  }

  // Inputs at which the code departs from its documentation.

  /** A first block with a signed transaction meets the documented conditions, and is rejected. */
  lemma SignedGenesisIsRejected(w: World, difficulty: uint64, t: Transaction)
    requires CheckSignature(w, t) == Accepted
    ensures var c := Chain(difficulty, [Block(0, [t], GENESIS_BLOCK_PROOF_OF_WORK, ZERO_HASH)]);
            Documented(w, c) && !ValidChain(w, c) && VerdictOf(w, c) == Invalid(Some(0))
  {
    var c := Chain(difficulty, [Block(0, [t], GENESIS_BLOCK_PROOF_OF_WORK, ZERO_HASH)]);
    assert !ValidAt(w, c, 0);
  }

  /** A linked block without transactions makes the chain invalid, and no invalid block is reported. */
  lemma EmptyBlockIsNotReported(w: World)
    ensures var genesis := Block(0, [], GENESIS_BLOCK_PROOF_OF_WORK, ZERO_HASH);
            var c := Chain(0, [genesis, Block(0, [], 0, Hash(w, genesis))]);
            !ValidChain(w, c) && VerdictOf(w, c) == Invalid(None)
  {
    hide Hash;
    var genesis := Block(0, [], GENESIS_BLOCK_PROOF_OF_WORK, ZERO_HASH);
    var c := Chain(0, [genesis, Block(0, [], 0, Hash(w, genesis))]);
    assert ValidAt(w, c, 0) && !ValidAt(w, c, 1);
    FirstBadIsLeast(w, c, 0);
  }
}
