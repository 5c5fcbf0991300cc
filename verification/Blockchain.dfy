/** The blockchain object: a difficulty and a heap list of blocks (src/blockchain.c). */
module Blockchains {
  import opened Bytes
  import opened Ledger
  import opened LinkedLists
  import opened ReturnCodes
  import opened Validity

  /** `memcmp` of the hash's first `difficulty` bytes with zeros. */
  method LeadingBytesAreZero(hash: Digest, difficulty: uint64) returns (zeros: bool)
    requires difficulty <= DIGEST_LENGTH
    ensures zeros <==> MeetsDifficulty(difficulty, hash)
  {
    zeros := hash[..difficulty] == ZERO_HASH[..difficulty];
    if zeros {
      assert forall i :: 0 <= i < difficulty ==> hash[i] == hash[..difficulty][i];
    }
  }

  /** The loop over a block's signatures: the verdict on the first one not accepted. */
  method CheckSignatures(w: World, ts: seq<Transaction>) returns (verdict: SignatureVerdict)
    ensures var k := FirstUnsigned(w, ts);
            verdict == if k < |ts| then CheckSignature(w, ts[k]) else Accepted
    ensures verdict == Accepted <==> forall t :: t in ts ==> PlatformAccepts(w, t)
    ensures verdict != Accepted ==>
              exists k: nat :: FirstNotAccepted(w, ts, k)
                && verdict == if w.checkSignature(ts[k]) == Accepted then ReadsPastArray else w.checkSignature(ts[k])
  {
    assert ts[0..] == ts;
    for k := 0 to |ts|
      invariant FirstUnsigned(w, ts) == k + FirstUnsigned(w, ts[k..])
      invariant forall j :: 0 <= j < k ==> PlatformAccepts(w, ts[j])
    {
      var signature := CheckSignature(w, ts[k]);
      AcceptanceIsThePlatforms(w, ts[k]);
      if signature != Accepted {
        assert FirstNotAccepted(w, ts, k);
        return signature;
      }
      assert ts[k..][1..] == ts[k + 1..];
    }
    verdict := Accepted;
  }

  lemma SignedWhenNoneFails(w: World, ts: seq<Transaction>)
    ensures FirstUnsigned(w, ts) == |ts| <==> AllSigned(w, ts)
  {
  }

  class Blockchain {
    const difficulty: uint64  // num_leading_zero_bytes_required_in_block_hash
    const blockList: LinkedList<Block>

    ghost predicate Valid()
      reads blockList, blockList.Repr
    {
      blockList.Valid()
    }

    ghost function Value(): Chain
      reads blockList
    {
      Chain(difficulty, blockList.contents)
    }

    constructor (difficulty: uint64)
      ensures Valid() && fresh(blockList.Repr) && Value() == Chain(difficulty, [])
    {
      this.difficulty := difficulty;
      blockList := new LinkedList(None);
    }

    method AddBlock(block: Block)
      requires Valid()
      modifies blockList.Repr
      ensures Valid() && fresh(blockList.Repr - old(blockList.Repr))
      ensures Value() == Chain(difficulty, old(Value().blocks) + [block])
    {
      blockList.Append(block);
    }

    /** `blockchain_verify` stops at the first check that fails. */
    method Verify(w: World) returns (verdict: Verdict)
      requires Valid()
      ensures verdict == VerdictOf(w, Value())
      ensures verdict == Verdict.Valid <==> ValidChain(w, Value())
      ensures verdict == Verdict.Valid <==> forall i :: 0 <= i < |Value().blocks| ==> Sound(w, Value(), i)
    {
      hide Hash, HashedBytes, AllSigned, PlatformAccepts, FirstNotAccepted, Sound;
      ValidityIsSoundness(w, Value());
      if blockList.head == null {
        return Verdict.Valid;
      }
      ghost var c := Value();
      var genesis := blockList.head.data;
      if genesis.transactions != [] ||
         genesis.proofOfWork != GENESIS_BLOCK_PROOF_OF_WORK ||
         genesis.previousBlockHash != ZERO_HASH {
        return Invalid(Some(0));
      }
      var previousBlockHash := BlockHash(w, genesis);
      var node := blockList.head.next;
      var position := 1;
      assert FirstBad(w, c, 0) == FirstBad(w, c, 1) by {
        assert ValidAt(w, c, 0);
      }
      while node != null
        invariant 1 <= position <= |c.blocks| && node == NodeAt(blockList.nodes, position)
        invariant FirstBad(w, c, 0) == FirstBad(w, c, position)
        invariant previousBlockHash == Hash(w, c.blocks[position - 1])
        decreases |c.blocks| - position
      {
        var block := node.data;
        assert block == c.blocks[position];
        var hash := BlockHash(w, block);
        if difficulty > DIGEST_LENGTH {
          return Undefined;
        }
        var zeros := LeadingBytesAreZero(hash, difficulty);
        if !zeros {
          return Invalid(Some(position));
        }
        if block.previousBlockHash != previousBlockHash {
          return Invalid(Some(position));
        }
        if block.transactions == [] {
          return Invalid(None);
        }
        if block.transactions[0].amount != AMOUNT_GENERATED_DURING_MINTING ||
           block.transactions[0].sender != block.transactions[0].recipient {
          return Invalid(Some(position));
        }
        var signatures := CheckSignatures(w, block.transactions);
        SignedWhenNoneFails(w, block.transactions);
        if signatures != Accepted {
          assert !ValidAt(w, c, position);
          match signatures
          case CallFailed => return VerifyFailed(OpensslFunction);
          case ReadsPastArray => return Undefined;
          case Rejected => return Invalid(Some(position));
        }
        previousBlockHash := hash;
        assert ValidAt(w, c, position);
        node, position := node.next, position + 1;
      }
      verdict := Verdict.Valid;
    }
  }

  /** `block_create_genesis_block`, at the time `now`. */
  method CreateGenesisBlock(now: int64) returns (block: Block)
    ensures IsGenesis(block) && block.createdAt == now
  {
    block := Block(now, [], GENESIS_BLOCK_PROOF_OF_WORK, ZERO_HASH);
  }

  /** `blockchain_is_valid_block_hash`, the miner's byte loop, agrees with the verifier's comparison. */
  method IsValidBlockHash(difficulty: uint64, hash: Digest) returns (isValid: bool)
    requires difficulty <= DIGEST_LENGTH
    ensures isValid <==> MeetsDifficulty(difficulty, hash)
    ensures isValid <==> hash[..difficulty] == ZERO_HASH[..difficulty]
  {
    isValid := true;
    var idx := 0;
    while idx < difficulty
      invariant 0 <= idx <= difficulty
      invariant isValid && forall i :: 0 <= i < idx ==> hash[i] == 0
    {
      if hash[idx] != 0 {
        isValid := false;
        break;
      }
      idx := idx + 1;
    }
    if !isValid {
      assert hash[..difficulty][idx] != ZERO_HASH[..difficulty][idx];
    }
  }

  // Mining.

  const NONCE_LIMIT := TWO_TO_THE_64 - 1

  /** What the miner reads of the other threads' flags at its `k`-th attempt. */
  datatype Flags = Flags(shouldStop: nat -> bool, version: nat -> nat)

  function WithProof(block: Block, proof: uint64): Block {
    block.(proofOfWork := proof)
  }

  predicate Proves(w: World, difficulty: uint64, block: Block, proof: uint64) {
    MeetsDifficulty(difficulty, Hash(w, WithProof(block, proof)))
  }

  predicate Undisturbed(flags: Flags, version: nat, attempt: nat) {
    !flags.shouldStop(attempt) && flags.version(attempt) == version
  }

  /** Attempts `0..n` saw no request to stop and no new version, and found no proof. */
  ghost predicate FruitlessUpTo(
      w: World, difficulty: uint64, block: Block, flags: Flags, version: nat, n: nat)
    requires n < TWO_TO_THE_64
  {
    && (forall k :: 0 <= k < n ==> Undisturbed(flags, version, k))
    && (forall k :: 0 <= k < n ==> !Proves(w, difficulty, block, k))
  }

  /** A nonce proves a block when the hash of the block with that nonce begins with the zeros required. */
  lemma ProofIsZeros(w: World, difficulty: uint64, block: Block, proof: uint64)
    ensures Proves(w, difficulty, block, proof) <==>
            BeginsWithZeros(difficulty, w.sha256(HashedBytes(w, block.(proofOfWork := proof))))
  {
    hide HashedBytes;
  }

  /** `synchronized_blockchain_mine_block`: overwrites the proof of work, nonce by nonce. The result
      is the least nonce that proves the block, unless the flags stop the search before it. */
  method MineBlock(w: World, difficulty: uint64, candidate: Block, flags: Flags, versionMined: nat)
    returns (code: ReturnCode, block: Block, ghost attempts: nat)
    requires difficulty <= DIGEST_LENGTH
    ensures attempts <= NONCE_LIMIT && FruitlessUpTo(w, difficulty, candidate, flags, versionMined, attempts)
    ensures block == candidate.(proofOfWork := block.proofOfWork)
    ensures code in {Success, StoppedEarly, LongerBlockchainDetected, CouldNotFindValidProofOfWork}
    ensures code == CouldNotFindValidProofOfWork <==> attempts == NONCE_LIMIT
    ensures code == StoppedEarly <==> attempts < NONCE_LIMIT && flags.shouldStop(attempts)
    ensures code == LongerBlockchainDetected <==>
              && attempts < NONCE_LIMIT
              && !flags.shouldStop(attempts)
              && flags.version(attempts) != versionMined
    ensures code == Success <==>
              && attempts < NONCE_LIMIT
              && Undisturbed(flags, versionMined, attempts)
              && Proves(w, difficulty, candidate, attempts)
    ensures code == Success ==>
              && block.proofOfWork == attempts
              && BeginsWithZeros(difficulty, w.sha256(HashedBytes(w, block)))
  {
    hide Hash, MeetsDifficulty;
    block := candidate;
    var newProof := 0;
    while newProof < NONCE_LIMIT
      invariant 0 <= newProof <= NONCE_LIMIT
      invariant block == WithProof(candidate, block.proofOfWork)
      invariant FruitlessUpTo(w, difficulty, candidate, flags, versionMined, newProof)
    {
      attempts := newProof;
      if flags.shouldStop(newProof) {
        return StoppedEarly, block, attempts;
      }
      if versionMined != flags.version(newProof) {
        return LongerBlockchainDetected, block, attempts;
      }
      block := WithProof(block, newProof);
      var hash := BlockHash(w, block);
      var isValidBlockHash := IsValidBlockHash(difficulty, hash);
      if isValidBlockHash {
        ProofIsZeros(w, difficulty, candidate, newProof);
        return Success, block, attempts;
      }
      newProof := newProof + 1;
    }
    attempts := NONCE_LIMIT;
    code := CouldNotFindValidProofOfWork;
  }
}
