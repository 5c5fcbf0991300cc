/** The miner's loop over heap objects, with other threads acting between its accesses to shared data
    (src/mining_thread.c). Every execution is a run of the node. */
module MiningThread {
  import opened Blockchains
  import opened Bytes
  import opened Consensus
  import opened Interleavings
  import opened Ledger
  import opened LinkedLists
  import opened ReturnCodes
  import opened Validity

  /** What the outside world does during one turn of the loop: the actions of other threads just before
      each access to shared data, the clock, and the flags that the nonce search reads. */
  datatype Tick = Tick(
    beforePolling: seq<Outside>, beforeReloading: seq<Outside>, beforeRecording: seq<Outside>,
    beforeStarting: seq<Outside>, whileMining: seq<Outside>, beforeAppending: seq<Outside>,
    shouldStop: bool, now: int64, later: int64, flags: Flags)

  predicate AllPermitted(w: World, difficulty: uint64, actions: seq<Outside>) {
    forall a :: a in actions ==> Permitted(w, difficulty, a)
  }

  predicate TickPermitted(w: World, difficulty: uint64, t: Tick) {
    && AllPermitted(w, difficulty, t.beforePolling)
    && AllPermitted(w, difficulty, t.beforeReloading)
    && AllPermitted(w, difficulty, t.beforeRecording)
    && AllPermitted(w, difficulty, t.beforeStarting)
    && AllPermitted(w, difficulty, t.whileMining)
    && AllPermitted(w, difficulty, t.beforeAppending)
  }

  /** The objects hold what the state says. */
  ghost predicate Shows(sync: SynchronizedBlockchain, local: Blockchain, v: ChainsView)
    reads sync, sync.blockchain.blockList, sync.blockchain.blockList.Repr, local.blockList, local.blockList.Repr
  {
    && sync.Valid() && local.Valid()
    && sync !in local.blockList.Repr
    && v.shared == sync.blockchain.Value()
    && v.version == sync.version
    && v.local == local.Value()
    && (v.aliased <==> sync.blockchain == local)
    && (sync.blockchain != local ==> sync.blockchain.blockList.Repr !! local.blockList.Repr)
  }

  /** `r` is a run of the node that ends in `s`, safe throughout. */
  ghost predicate SafeRunTo(w: World, keys: Keys, difficulty: uint64, r: Trace, s: State) {
    && IsRun(w, keys, r)
    && r.states[|r.states| - 1] == s
    && Safe(w, difficulty, s)
    && forall t :: t in r.states ==> Safe(w, difficulty, t)
  }

  ghost function Extended(r: Trace, e: Event, t: State): Trace {
    Trace(r.states + [t], r.events + [e])
  }

  /** How many times the miner checked its chain and set out to extend it. */
  ghost function Turns(r: Trace): nat
    requires |r.states| == |r.events| + 1
    decreases |r.events|
  {
    var n := |r.events|;
    if n == 0 then
      0
    else
      Turns(Trace(r.states[..n], r.events[..n - 1])) +
      if r.events[n - 1] == MinerActs && r.states[n - 1].phase == Checking then 1 else 0
  }

  /** `r'` continues the run `r` by `turns` turns. */
  ghost predicate Continues(r: Trace, r': Trace, turns: nat) {
    && |r.states| == |r.events| + 1
    && |r'.states| == |r'.events| + 1
    && r.states <= r'.states
    && Turns(r') == Turns(r) + turns
  }

  lemma ContinueOn(r: Trace, r': Trace, r'': Trace, m: nat, n: nat)
    requires Continues(r, r', m) && Continues(r', r'', n)
    ensures Continues(r, r'', m + n)
  {
    hide Turns;
  }

  lemma ExtendRun(w: World, keys: Keys, difficulty: uint64, r: Trace, s: State, e: Event, t: State)
    requires SigningWorks(w, keys) && SafeRunTo(w, keys, difficulty, r, s) && Next(w, keys, s, e, t)
    ensures SafeRunTo(w, keys, difficulty, Extended(r, e, t), t)
    ensures Continues(r, Extended(r, e, t), if e == MinerActs && s.phase == Checking then 1 else 0)
  {
    hide Safe, Next;
    StepKeepsSafe(w, keys, difficulty, s, e, t);
    var r' := Extended(r, e, t);
    var n := |r'.events|;
    assert r'.states[..n] == r.states && r'.events[..n - 1] == r.events;
  }

  /** A fresh blockchain object with the given value. */
  method BuildChain(c: Chain) returns (chain: Blockchain)
    ensures chain.Valid() && fresh(chain) && fresh(chain.blockList.Repr) && chain.Value() == c
  {
    chain := new Blockchain(c.difficulty);
    for i := 0 to |c.blocks|
      invariant chain.Valid() && fresh(chain.blockList.Repr)
      invariant chain.Value() == Chain(c.difficulty, c.blocks[..i])
    {
      chain.AddBlock(c.blocks[i]);
    }
    assert c.blocks[..|c.blocks|] == c.blocks;
  }

  lemma StartsAsItself(w: World, keys: Keys, difficulty: uint64, r: Trace, s: State)
    requires SafeRunTo(w, keys, difficulty, r, s)
    ensures Continues(r, r, 0)
  {
    hide Next, Safe;
  }

  /** Another thread publishes a chain, or the consensus server considers one. */
  method LetOneAct(w: World, sync: SynchronizedBlockchain, ghost local: Blockchain, action: Outside, ghost s: State)
    requires Shows(sync, local, s.Chains())
    modifies sync
    ensures Shows(sync, local, AfterOthers(w, s, action).Chains())
    ensures sync.blockchain == old(sync.blockchain) || fresh(sync.blockchain.blockList.Repr)
    ensures sync.version == old(sync.version) + if sync.blockchain == old(sync.blockchain) then 0 else 1
    ensures match action
            case Publish(c) => sync.blockchain.Value() == c && sync.blockchain != old(sync.blockchain)
            case Offer(c) => Answers(w, old(sync.Value()), c, sync.Value())
  {
    hide ValidChain, VerdictOf, LinkedList.Valid;
    var peer := BuildChain(action.chain);
    if action.Publish? {
      sync.blockchain, sync.version := peer, sync.version + 1;
    } else {
      var verdict := peer.Verify(w);
      var switched := sync.Consider(w, peer, verdict == Verdict.Valid);
    }
  }

  lemma OthersStep(w: World, keys: Keys, difficulty: uint64, r: Trace, s: State, a: Outside)
    requires SigningWorks(w, keys) && SafeRunTo(w, keys, difficulty, r, s) && Permitted(w, difficulty, a)
    ensures var t := AfterOthers(w, s, a);
            && SafeRunTo(w, keys, difficulty, Extended(r, OthersAct(a), t), t)
            && Continues(r, Extended(r, OthersAct(a), t), 0)
  {
    hide ValidChain, MeetsDifficulty, ExtendsTip;
    ExtendRun(w, keys, difficulty, r, s, OthersAct(a), AfterOthers(w, s, a));
  }

  /** The other threads act, one after the other, while the miner waits. */
  method LetOthersAct(
      w: World, ghost keys: Keys, ghost difficulty: uint64, sync: SynchronizedBlockchain, ghost local: Blockchain,
      actions: seq<Outside>, ghost r: Trace, ghost s: State)
    returns (ghost r': Trace, ghost s': State)
    requires SigningWorks(w, keys) && AllPermitted(w, difficulty, actions)
    requires SafeRunTo(w, keys, difficulty, r, s) && Shows(sync, local, s.Chains())
    modifies sync
    ensures SafeRunTo(w, keys, difficulty, r', s') && Shows(sync, local, s'.Chains())
    ensures sync.blockchain == old(sync.blockchain) || fresh(sync.blockchain.blockList.Repr)
    ensures Continues(r, r', 0)
    ensures s' == s.(shared := s'.shared, version := s'.version, aliased := s'.aliased)
    // Each replacement counts; nothing else does, and what is published last is what is there.
    ensures sync.version >= old(sync.version)
    ensures sync.version == old(sync.version) ==> sync.blockchain == old(sync.blockchain)
    ensures actions == [] ==> sync.version == old(sync.version)
    ensures actions != [] && actions[|actions| - 1].Publish? ==>
              sync.version > old(sync.version) && sync.blockchain.Value() == actions[|actions| - 1].chain
  {
    hide SafeRunTo, Turns, Shows, Permitted, Better, Answers, LinkedList.Valid;
    r', s' := r, s;
    StartsAsItself(w, keys, difficulty, r, s);
    for i := 0 to |actions|
      invariant SafeRunTo(w, keys, difficulty, r', s') && Shows(sync, local, s'.Chains())
      invariant sync.blockchain == old(sync.blockchain) || fresh(sync.blockchain.blockList.Repr)
      invariant Continues(r, r', 0)
      invariant s' == s.(shared := s'.shared, version := s'.version, aliased := s'.aliased)
      invariant sync.version >= old(sync.version)
      invariant sync.version == old(sync.version) ==> sync.blockchain == old(sync.blockchain)
      invariant i == 0 ==> sync.version == old(sync.version)
      invariant i > 0 && actions[i - 1].Publish? ==>
                  sync.version > old(sync.version) && sync.blockchain.Value() == actions[i - 1].chain
    {
      LetOneAct(w, sync, local, actions[i], s');
      ghost var t := AfterOthers(w, s', actions[i]);
      OthersStep(w, keys, difficulty, r', s', actions[i]);
      r', s' := Extended(r', OthersAct(actions[i]), t), t;
    }
  }

  /** The block to mine on `c`: linked to its last block, with one transaction, which pays the miner. */
  predicate IsNextBlock(w: World, keys: Keys, c: Chain, now: int64, later: int64, b: Block) {
    && c.blocks != []
    && b.createdAt == later
    && b.proofOfWork == 0
    && b.previousBlockHash == w.sha256(HashedBytes(w, c.blocks[|c.blocks| - 1]))
    && |b.transactions| == 1
    && PaysTheMiner(w, keys, now, b.transactions[0])
  }

  lemma NextBlockAfterCheck(w: World, keys: Keys, c: Chain, now: int64, later: int64)
    ensures match AfterCheck(w, keys, c, now, later)
            case Starting(b) => VerdictOf(w, c) == Valid && IsNextBlock(w, keys, c, now, later, b)
            case _ => VerdictOf(w, c) != Valid || c.blocks == [] || CannotSign(w, keys, now)
    ensures VerdictOf(w, c) == Valid && c.blocks != [] && CannotSign(w, keys, now) ==>
              AfterCheck(w, keys, c, now, later) == Exited(OpensslFunction)
    ensures VerdictOf(w, c) == Valid && c.blocks == [] ==>
              AfterCheck(w, keys, c, now, later) == Exited(LinkedListEmpty)
    ensures VerdictOf(w, c).VerifyFailed? ==>
              AfterCheck(w, keys, c, now, later) == Exited(VerdictOf(w, c).code)
    ensures VerdictOf(w, c).Invalid? ==>
              AfterCheck(w, keys, c, now, later) ==
              if VerdictOf(w, c).first == None then Lost else Exited(InvalidBlockchain)
  {
    hide HashedBytes, VerdictOf, Mint, PaysTheMiner, CannotSign;
    MintPaysTheMiner(w, keys, now);
  }

  /** Verifies the local chain and builds the block to mine on it. */
  method BuildNextBlock(w: World, keys: Keys, local: Blockchain, now: int64, later: int64) returns (r: Result<Block>)
    requires local.Valid()
    ensures AfterCheck(w, keys, local.Value(), now, later) ==
            if r.Ok? then Starting(r.value) else if r.Err? then Exited(r.code) else Lost
    ensures r.Ok? ==> IsNextBlock(w, keys, local.Value(), now, later, r.value)
    ensures match VerdictOf(w, local.Value())
            case Valid =>
              if local.Value().blocks == [] then r == Err(LinkedListEmpty)
              else if CannotSign(w, keys, now) then r == Err(OpensslFunction)
              else r.Ok?
            case Invalid(first) => r == if first == None then OutOfBounds else Err(InvalidBlockchain)
            case VerifyFailed(code) => r == Err(code)
            case Undefined => r == OutOfBounds
  {
    hide Hash, HashedBytes, ValidChain, VerdictOf, Mint, CannotSign, IsNextBlock;
    NextBlockAfterCheck(w, keys, local.Value(), now, later);
    MintPaysTheMiner(w, keys, now);
    var verdict := local.Verify(w);
    if verdict.VerifyFailed? {
      return Err(verdict.code);
    }
    if verdict == Undefined || verdict == Invalid(None) {
      return OutOfBounds;
    }
    if verdict != Verdict.Valid {
      return Err(InvalidBlockchain);
    }
    var last :- local.blockList.GetLast();
    var previousBlockHash := BlockHash(w, last.data);
    var minting := Mint(w, keys, now);
    if minting == None {
      return Err(OpensslFunction);
    }
    r := Ok(Block(later, [minting.value], 0, previousBlockHash));
  }

  /** Compares versions, and on a difference reads the shared pointer and then the shared version. */
  method Refresh(
      w: World, ghost keys: Keys, ghost difficulty: uint64, sync: SynchronizedBlockchain, local: Blockchain,
      versionMined: nat, tick: Tick, ghost r: Trace, ghost s: State)
    returns (local': Blockchain, versionMined': nat, ghost r': Trace, ghost s': State)
    requires SigningWorks(w, keys) && TickPermitted(w, difficulty, tick)
    requires SafeRunTo(w, keys, difficulty, r, s) && Shows(sync, local, s.Chains())
    requires s.phase == Polling && s.versionMined == versionMined
    modifies sync
    ensures SafeRunTo(w, keys, difficulty, r', s') && Shows(sync, local', s'.Chains())
    ensures s'.phase == Checking && s'.versionMined == versionMined' && Continues(r, r', 0)
    ensures sync.blockchain == old(sync.blockchain) || fresh(sync.blockchain.blockList.Repr)
    ensures local' == local || local' == old(sync.blockchain) || fresh(local'.blockList.Repr)
    // The version in force is recorded. With the same version nothing is read; with another one the chain is.
    ensures versionMined' == sync.version >= old(sync.version)
    ensures versionMined == old(sync.version) ==> local' == local && versionMined' == versionMined
    ensures versionMined != old(sync.version) && tick.beforeRecording == [] ==> local' == sync.blockchain
    ensures versionMined == old(sync.version) || tick.beforeReloading == tick.beforeRecording == [] ==>
              sync.version == old(sync.version) && sync.blockchain == old(sync.blockchain)
  {
    hide SafeRunTo, Turns, AllPermitted, LinkedList.Valid;
    local', versionMined' := local, versionMined;
    if versionMined != sync.version {
      ghost var t := s.(phase := Reloading);
      ExtendRun(w, keys, difficulty, r, s, MinerActs, t);
      r', s' := LetOthersAct(w, keys, difficulty, sync, local, tick.beforeReloading, Extended(r, MinerActs, t), t);
      local' := sync.blockchain;
      t := s'.(local := s'.shared, aliased := true, phase := Recording);
      ExtendRun(w, keys, difficulty, r', s', MinerActs, t);
      r', s' := LetOthersAct(w, keys, difficulty, sync, local', tick.beforeRecording, Extended(r', MinerActs, t), t);
      versionMined' := sync.version;
      t := s'.(versionMined := s'.version, code := Success, phase := Checking);
      ExtendRun(w, keys, difficulty, r', s', MinerActs, t);
      r', s' := Extended(r', MinerActs, t), t;
    } else {
      s' := s.(phase := Checking);
      ExtendRun(w, keys, difficulty, r, s, MinerActs, s');
      r' := Extended(r, MinerActs, s');
    }
  }

  method SharedDifficulty(sync: SynchronizedBlockchain, ghost local: Blockchain, ghost s: State) returns (d: uint64)
    requires Shows(sync, local, s.Chains())
    ensures d == s.shared.difficulty
  {
    d := sync.blockchain.difficulty;
  }

  lemma MiningDifficulty(w: World, keys: Keys, difficulty: uint64, r: Trace, s: State)
    requires SafeRunTo(w, keys, difficulty, r, s) && s.phase.Mining?
    ensures s.phase.difficulty == difficulty
  {
    hide IsRun, ExtendsTip;
  }

  lemma StartingIsStep(w: World, keys: Keys, s: State, t: State)
    requires s.phase.Starting? && t == s.(phase := Mining(s.phase.next, s.shared.difficulty))
    ensures Next(w, keys, s, MinerActs, t)
  {
  }

  lemma SearchIsStep(
      w: World, keys: Keys, s: State, d: uint64, b: Block, flags: Flags, version: nat, code: ReturnCode, k: nat,
      t: State)
    requires s.phase == Mining(b, d) && s.code == Success
    requires k <= NONCE_LIMIT && FruitlessUpTo(w, d, b, flags, version, k)
    requires code == CouldNotFindValidProofOfWork ==> k == NONCE_LIMIT
    requires code == Success ==> k < NONCE_LIMIT && Proves(w, d, b, k) && t == s.(phase := Appending(WithProof(b, k)))
    requires code == CouldNotFindValidProofOfWork ==> t == s.(code := code, phase := Polling)
    requires code != Success && code != CouldNotFindValidProofOfWork ==> t == s.(phase := Polling)
    ensures Next(w, keys, s, MinerActs, t)
  {
    hide Proves;
  }

  predicate HashHasZeros(w: World, difficulty: uint64, block: Block, nonce: uint64) {
    BeginsWithZeros(difficulty, w.sha256(HashedBytes(w, block.(proofOfWork := nonce))))
  }

  /** The search for a nonce succeeds with `k`: it is the least that proves the block, and up to it
      neither the stop flag is seen nor another version. */
  ghost predicate FindsAt(w: World, difficulty: uint64, next: Block, flags: Flags, version: nat, k: nat) {
    && k < TWO_TO_THE_64 - 1
    && HashHasZeros(w, difficulty, next, k)
    && (forall j :: 0 <= j < k ==> !HashHasZeros(w, difficulty, next, j))
    && (forall j :: 0 <= j <= k ==> !flags.shouldStop(j) && flags.version(j) == version)
  }

  /** The search tries every nonce, undisturbed, and none proves the block. */
  ghost predicate Exhausts(w: World, difficulty: uint64, next: Block, flags: Flags, version: nat) {
    forall j :: 0 <= j < TWO_TO_THE_64 - 1 ==>
      !HashHasZeros(w, difficulty, next, j) && !flags.shouldStop(j) && flags.version(j) == version
  }

  lemma SearchFinds(
      w: World, difficulty: uint64, next: Block, flags: Flags, version: nat, code: ReturnCode, attempts: nat)
    requires attempts <= NONCE_LIMIT && FruitlessUpTo(w, difficulty, next, flags, version, attempts)
    requires code == Success <==>
             && attempts < NONCE_LIMIT && Undisturbed(flags, version, attempts)
             && Proves(w, difficulty, next, attempts)
    requires attempts == NONCE_LIMIT || code == Success || !Undisturbed(flags, version, attempts)
    requires code == CouldNotFindValidProofOfWork <==> attempts == NONCE_LIMIT
    ensures code == CouldNotFindValidProofOfWork <==> Exhausts(w, difficulty, next, flags, version)
    ensures code == Success ==> FindsAt(w, difficulty, next, flags, version, attempts)
    ensures code != Success ==> forall k :: !FindsAt(w, difficulty, next, flags, version, k)
  {
    forall j | 0 <= j <= attempts && j < NONCE_LIMIT
      ensures Proves(w, difficulty, next, j) <==> HashHasZeros(w, difficulty, next, j)
      ensures Undisturbed(flags, version, j) <==> !flags.shouldStop(j) && flags.version(j) == version
    {
      ProofIsZeros(w, difficulty, next, j);
    }
    hide Proves, HashHasZeros, Undisturbed;
    if code == Success {
      forall j | 0 <= j <= attempts
        ensures !flags.shouldStop(j) && flags.version(j) == version
        ensures j < attempts ==> !HashHasZeros(w, difficulty, next, j)
      {
        assert Undisturbed(flags, version, j);
        assert j < attempts ==> !Proves(w, difficulty, next, j);
      }
    }
    if attempts == NONCE_LIMIT {
      forall j | 0 <= j < NONCE_LIMIT
        ensures !HashHasZeros(w, difficulty, next, j) && !flags.shouldStop(j) && flags.version(j) == version
      {
        assert Undisturbed(flags, version, j) && !Proves(w, difficulty, next, j);
      }
    }
  }

  /** Searches for a nonce for `next` with the shared chain's difficulty. */
  method Search(
      w: World, ghost keys: Keys, ghost difficulty: uint64, sync: SynchronizedBlockchain, ghost local: Blockchain,
      versionMined: nat, next: Block, tick: Tick, ghost r: Trace, ghost s: State)
    returns (code: ReturnCode, block: Block, ghost r': Trace, ghost s': State)
    requires SigningWorks(w, keys) && TickPermitted(w, difficulty, tick) && difficulty <= DIGEST_LENGTH
    requires SafeRunTo(w, keys, difficulty, r, s) && Shows(sync, local, s.Chains())
    requires s.phase == Starting(next) && s.code == Success
    modifies sync
    ensures SafeRunTo(w, keys, difficulty, r', s') && Shows(sync, local, s'.Chains()) && Continues(r, r', 0)
    ensures s'.phase == (if code == Success then Appending(block) else Polling) && s'.versionMined == s.versionMined
    ensures s'.code == if code == CouldNotFindValidProofOfWork then code else Success
    ensures code == Success ==>
              && FindsAt(w, difficulty, next, tick.flags, versionMined, block.proofOfWork)
              && block == next.(proofOfWork := block.proofOfWork)
    ensures code != Success ==> forall k :: !FindsAt(w, difficulty, next, tick.flags, versionMined, k)
    ensures code == CouldNotFindValidProofOfWork <==> Exhausts(w, difficulty, next, tick.flags, versionMined)
    ensures tick.beforeStarting == tick.whileMining == [] ==> sync.version == old(sync.version)
    ensures sync.version >= old(sync.version)
    ensures sync.version == old(sync.version) ==> sync.blockchain == old(sync.blockchain)
    ensures sync.blockchain == old(sync.blockchain) || fresh(sync.blockchain.blockList.Repr)
  {
    hide SafeRunTo, Turns, AllPermitted, Shows, Proves, FruitlessUpTo, MinerStep, FindsAt, Exhausts, LinkedList.Valid;
    r', s' := LetOthersAct(w, keys, difficulty, sync, local, tick.beforeStarting, r, s);
    var d := SharedDifficulty(sync, local, s');
    ghost var t := s'.(phase := Mining(next, d));
    StartingIsStep(w, keys, s', t);
    ExtendRun(w, keys, difficulty, r', s', MinerActs, t);
    r', s' := LetOthersAct(w, keys, difficulty, sync, local, tick.whileMining, Extended(r', MinerActs, t), t);
    MiningDifficulty(w, keys, difficulty, r', s');
    ghost var attempts;
    code, block, attempts := MineBlock(w, d, next, tick.flags, versionMined);
    t := s'.(code := if code == CouldNotFindValidProofOfWork then code else s'.code,
             phase := if code == Success then Appending(block) else Polling);
    SearchFinds(w, d, next, tick.flags, versionMined, code, attempts);
    SearchIsStep(w, keys, s', d, next, tick.flags, versionMined, code, attempts, t);
    ExtendRun(w, keys, difficulty, r', s', MinerActs, t);
    r', s' := Extended(r', MinerActs, t), t;
  }

  ghost function AfterAppend(s: State, block: Block): State {
    var extended := s.local.(blocks := s.local.blocks + [block]);
    s.(local := extended, shared := if s.aliased then extended else s.shared, phase := Polling)
  }

  /** The append reaches the shared chain exactly when the miner's chain is the shared one. */
  method AppendBlock(sync: SynchronizedBlockchain, local: Blockchain, block: Block, ghost s: State)
    requires Shows(sync, local, s.Chains())
    modifies local.blockList.Repr
    ensures Shows(sync, local, AfterAppend(s, block).Chains())
    ensures local.Value() == Chain(local.difficulty, old(local.Value().blocks) + [block])
    ensures sync.blockchain == old(sync.blockchain) && sync.version == old(sync.version)
    ensures fresh(local.blockList.Repr - old(local.blockList.Repr))
    ensures fresh(sync.blockchain.blockList.Repr - old(sync.blockchain.blockList.Repr))
  {
    local.AddBlock(block);
  }

  lemma AppendingIsStep(w: World, keys: Keys, s: State, b: Block)
    requires s.phase == Appending(b)
    ensures Next(w, keys, s, MinerActs, AfterAppend(s, b))
  {
  }

  /** `mined` is the block that the search for a nonce for `next` gives, if it gives one. */
  ghost predicate IsMined(
      w: World, difficulty: uint64, next: Block, flags: Flags, version: nat, mined: Option<Block>)
  {
    match mined
    case None => forall k :: !FindsAt(w, difficulty, next, flags, version, k)
    case Some(b) =>
      FindsAt(w, difficulty, next, flags, version, b.proofOfWork) && b == next.(proofOfWork := b.proofOfWork)
  }

  function WithMined(c: Chain, mined: Option<Block>): Chain {
    if mined.Some? then c.(blocks := c.blocks + [mined.value]) else c
  }

  /** Mines `next`, and appends it to the local chain when a nonce is found. */
  method MineAndAppend(
      w: World, ghost keys: Keys, ghost difficulty: uint64, sync: SynchronizedBlockchain, local: Blockchain,
      versionMined: nat, next: Block, tick: Tick, ghost r: Trace, ghost s: State)
    returns (code: ReturnCode, ghost mined: Option<Block>, ghost r': Trace, ghost s': State)
    requires SigningWorks(w, keys) && TickPermitted(w, difficulty, tick) && difficulty <= DIGEST_LENGTH
    requires SafeRunTo(w, keys, difficulty, r, s) && Shows(sync, local, s.Chains())
    requires s.phase == Starting(next) && s.code == Success
    modifies sync, local.blockList.Repr
    ensures SafeRunTo(w, keys, difficulty, r', s') && Shows(sync, local, s'.Chains())
    ensures s'.phase == Polling && s'.versionMined == s.versionMined && s'.code == code && Continues(r, r', 0)
    ensures IsMined(w, difficulty, next, tick.flags, versionMined, mined)
    ensures local.Value() == WithMined(old(local.Value()), mined)
    ensures code == CouldNotFindValidProofOfWork <==> Exhausts(w, difficulty, next, tick.flags, versionMined)
    ensures tick.beforeStarting == tick.whileMining == tick.beforeAppending == [] ==> sync.version == old(sync.version)
    ensures sync.version >= old(sync.version)
    ensures sync.version == old(sync.version) ==> sync.blockchain == old(sync.blockchain)
    ensures fresh(sync.blockchain.blockList.Repr - old(sync.blockchain.blockList.Repr))
    ensures fresh(local.blockList.Repr - old(local.blockList.Repr))
  {
    hide SafeRunTo, Turns, AllPermitted, Shows, MinerStep, FindsAt, Exhausts, LinkedList.Valid;
    var block;
    mined := None;
    code, block, r', s' := Search(w, keys, difficulty, sync, local, versionMined, next, tick, r, s);
    if code == Success {
      r', s' := LetOthersAct(w, keys, difficulty, sync, local, tick.beforeAppending, r', s');
      ghost var t := AfterAppend(s', block);
      AppendingIsStep(w, keys, s', block);
      AppendBlock(sync, local, block, s');
      ExtendRun(w, keys, difficulty, r', s', MinerActs, t);
      r', s' := Extended(r', MinerActs, t), t;
      mined := Some(block);
    } else if code != CouldNotFindValidProofOfWork {
      code := Success;
    }
  }

  lemma CheckExitsOnlyWhenSigningFails(
      w: World, keys: Keys, difficulty: uint64, r: Trace, s: State, now: int64, later: int64)
    requires SigningWorks(w, keys) && SafeRunTo(w, keys, difficulty, r, s)
    ensures var p := AfterCheck(w, keys, s.local, now, later);
            if Mint(w, keys, now).Some? then p.Starting? else p == Exited(OpensslFunction)
  {
    hide IsRun, ValidChain, ExtendsTip, VerdictOf, Mint, Hash;
    VerdictIsValidity(w, s.local);
  }

  lemma CheckIsStep(w: World, keys: Keys, s: State, now: int64, later: int64)
    requires s.phase == Checking
    ensures Next(w, keys, s, MinerActs, s.(code := Success, phase := AfterCheck(w, keys, s.local, now, later)))
  {
    hide AfterCheck;
  }

  /** Verifies the local chain and builds the next block, an action on the miner's own data. */
  method Check(
      w: World, keys: Keys, ghost difficulty: uint64, ghost sync: SynchronizedBlockchain, local: Blockchain,
      now: int64, later: int64, ghost r: Trace, ghost s: State)
    returns (next: Result<Block>, ghost r': Trace, ghost s': State)
    requires SigningWorks(w, keys)
    requires SafeRunTo(w, keys, difficulty, r, s) && Shows(sync, local, s.Chains()) && s.phase == Checking
    ensures SafeRunTo(w, keys, difficulty, r', s') && s'.Chains() == s.Chains() && Continues(r, r', 1)
    ensures s'.versionMined == s.versionMined && s'.code == Success && next != OutOfBounds
    ensures s'.phase == if next.Ok? then Starting(next.value) else Exited(next.code)
    ensures if CannotSign(w, keys, now) then next == Err(OpensslFunction) else next.Ok?
    ensures next.Ok? ==> IsNextBlock(w, keys, local.Value(), now, later, next.value)
  {
    hide SafeRunTo, Turns, MinerStep, AfterCheck, IsNextBlock, CannotSign, VerdictOf, Mint, LinkedList.Valid;
    MintPaysTheMiner(w, keys, now);
    next := BuildNextBlock(w, keys, local, now, later);
    s' := s.(code := Success, phase := AfterCheck(w, keys, s.local, now, later));
    CheckIsStep(w, keys, s, now, later);
    CheckExitsOnlyWhenSigningFails(w, keys, difficulty, r, s, now, later);
    ExtendRun(w, keys, difficulty, r, s, MinerActs, s');
    r' := Extended(r, MinerActs, s');
  }

  /** What one turn did: the chain it mined on and the version it recorded for it, the block it built,
      and the block it mined, if any. */
  datatype Report = Report(base: Chain, version: nat, next: Block, mined: Option<Block>)
  {
    function Result(): Chain {
      WithMined(base, mined)
    }
  }

  /** Just before the turn another thread publishes `c`, and none replaces it while the miner reads it. */
  predicate PublishedFor(tick: Tick, c: Chain) {
    && tick.beforePolling != []
    && tick.beforePolling[|tick.beforePolling| - 1] == Publish(c)
    && tick.beforeReloading == tick.beforeRecording == []
  }

  predicate Quiet(tick: Tick) {
    && tick.beforePolling == tick.beforeReloading == tick.beforeRecording == []
    && tick.beforeStarting == tick.whileMining == tick.beforeAppending == []
  }

  /** The block built is the one to mine on the chain, and the block mined is what the search for a nonce gives. */
  ghost predicate IsTurn(w: World, keys: Keys, difficulty: uint64, tick: Tick, t: Report) {
    && IsNextBlock(w, keys, t.base, tick.now, tick.later, t.next)
    && IsMined(w, difficulty, t.next, tick.flags, t.version, t.mined)
    && forall c :: PublishedFor(tick, c) ==> t.base == c
  }

  lemma VersionIsNotAhead(w: World, keys: Keys, difficulty: uint64, r: Trace, s: State)
    requires SafeRunTo(w, keys, difficulty, r, s)
    ensures s.versionMined <= s.version
  {
    hide IsRun, Usable;
  }

  lemma VersionAgrees(sync: SynchronizedBlockchain, local: Blockchain, s: State)
    requires Shows(sync, local, s.Chains())
    ensures s.version == sync.version
  {
  }

  /** The first part of a turn: lets the others act, refreshes the local chain, and checks it. */
  method BeginTurn(
      w: World, keys: Keys, ghost difficulty: uint64, sync: SynchronizedBlockchain, local: Blockchain,
      versionMined: nat, tick: Tick, ghost r: Trace, ghost s: State)
    returns (next: Result<Block>, local': Blockchain, versionMined': nat, ghost r': Trace, ghost s': State)
    requires SigningWorks(w, keys) && TickPermitted(w, difficulty, tick)
    requires SafeRunTo(w, keys, difficulty, r, s) && Shows(sync, local, s.Chains())
    requires s.phase == Polling && s.versionMined == versionMined
    modifies sync
    ensures SafeRunTo(w, keys, difficulty, r', s') && Shows(sync, local', s'.Chains()) && Continues(r, r', 1)
    ensures s'.versionMined == versionMined' && s'.code == Success && next != OutOfBounds
    ensures s'.phase == if next.Ok? then Starting(next.value) else Exited(next.code)
    ensures if CannotSign(w, keys, tick.now) then next == Err(OpensslFunction) else next.Ok?
    ensures next.Ok? ==> IsNextBlock(w, keys, local'.Value(), tick.now, tick.later, next.value)
    ensures sync.blockchain == old(sync.blockchain) || fresh(sync.blockchain.blockList.Repr)
    ensures local' == local || local' == old(sync.blockchain) || fresh(local'.blockList.Repr)
    // The version in force is recorded, and with the same version the miner goes on with its chain.
    ensures versionMined' == sync.version >= old(sync.version)
    ensures versionMined' >= versionMined && (versionMined' == versionMined ==> local' == local)
    ensures forall c :: PublishedFor(tick, c) ==> local'.Value() == c
    ensures Quiet(tick) ==> sync.version == old(sync.version) && sync.blockchain == old(sync.blockchain)
    ensures Quiet(tick) && local == old(sync.blockchain) ==> local' == local
  {
    hide SafeRunTo, Turns, AllPermitted, Shows, MinerStep, IsNextBlock, CannotSign, Continues, LinkedList.Valid;
    VersionAgrees(sync, local, s);
    VersionIsNotAhead(w, keys, difficulty, r, s);
    ghost var r1, s1 := LetOthersAct(w, keys, difficulty, sync, local, tick.beforePolling, r, s);
    ghost var r2, s2;
    local', versionMined', r2, s2 := Refresh(w, keys, difficulty, sync, local, versionMined, tick, r1, s1);
    next, r', s' := Check(w, keys, difficulty, sync, local', tick.now, tick.later, r2, s2);
    ContinueOn(r, r1, r2, 0, 0);
    ContinueOn(r, r2, r', 0, 1);
  }

  /** One turn of the loop of `mine_blocks`. It leaves the loop only when signing fails. */
  method OneTurn(
      w: World, keys: Keys, ghost difficulty: uint64, sync: SynchronizedBlockchain, local: Blockchain,
      versionMined: nat, tick: Tick, ghost r: Trace, ghost s: State)
    returns (code: ReturnCode, exited: bool, local': Blockchain, versionMined': nat, ghost report: Option<Report>,
             ghost r': Trace, ghost s': State)
    requires SigningWorks(w, keys) && TickPermitted(w, difficulty, tick) && difficulty <= DIGEST_LENGTH
    requires SafeRunTo(w, keys, difficulty, r, s) && Shows(sync, local, s.Chains())
    requires s.phase == Polling && s.versionMined == versionMined
    modifies sync, local.blockList.Repr, sync.blockchain.blockList.Repr
    ensures SafeRunTo(w, keys, difficulty, r', s') && Shows(sync, local', s'.Chains()) && Continues(r, r', 1)
    ensures s'.phase == if exited then Exited(code) else Polling
    ensures exited ==> code == OpensslFunction
    ensures exited <==> CannotSign(w, keys, tick.now)
    ensures !exited ==> s'.versionMined == versionMined' && s'.code == code
    ensures exited <==> report == None
    ensures report.Some? ==>
              && IsTurn(w, keys, difficulty, tick, report.value)
              && report.value.version == versionMined' >= versionMined
              && versionMined' >= old(sync.version)
              && (versionMined' == versionMined ==> report.value.base == old(local.Value()))
              && local'.Value() == report.value.Result()
              && (code == CouldNotFindValidProofOfWork <==>
                  Exhausts(w, difficulty, report.value.next, tick.flags, versionMined'))
    ensures Quiet(tick) ==> sync.version == old(sync.version) && sync.blockchain == old(sync.blockchain)
    ensures Quiet(tick) && local == old(sync.blockchain) ==>
              local' == local && if exited then local.Value() == old(local.Value())
                                 else report.value.base == old(local.Value())
    ensures sync.version >= old(sync.version)
    ensures fresh(sync.blockchain.blockList.Repr - old(sync.blockchain.blockList.Repr))
    ensures fresh(local'.blockList.Repr - old(local.blockList.Repr) - old(sync.blockchain.blockList.Repr))
  {
    hide SafeRunTo, Turns, TickPermitted, Shows, MinerStep, IsNextBlock, IsMined, CannotSign, Continues,
      LinkedList.Valid, PublishedFor, Exhausts;
    ghost var r1, s1;
    var next;
    next, local', versionMined', r1, s1 := BeginTurn(w, keys, difficulty, sync, local, versionMined, tick, r, s);
    exited := next.Err?;
    if exited {
      code, report, r', s' := next.code, None, r1, s1;
    } else {
      ghost var base, mined := local'.Value(), None;
      code, mined, r', s' :=
        MineAndAppend(w, keys, difficulty, sync, local', versionMined', next.value, tick, r1, s1);
      report := Some(Report(base, versionMined', next.value, mined));
      ContinueOn(r, r1, r', 1, 0);
    }
  }

  // The history of a run of turns.

  function ChainAfter(c: Chain, reports: seq<Report>): Chain {
    if reports == [] then c else reports[|reports| - 1].Result()
  }

  function VersionAfter(version: nat, reports: seq<Report>): nat {
    if reports == [] then version else reports[|reports| - 1].version
  }

  /** Each turn records no earlier version than the one before, and under the same version goes on with
      the chain that the one before left. */
  ghost predicate IsHistory(c: Chain, version: nat, reports: seq<Report>) {
    forall i :: 0 <= i < |reports| ==>
      && reports[i].version >= VersionAfter(version, reports[..i])
      && (reports[i].version == VersionAfter(version, reports[..i]) ==> reports[i].base == ChainAfter(c, reports[..i]))
  }

  lemma ExtendHistory(c: Chain, version: nat, reports: seq<Report>, t: Report)
    requires IsHistory(c, version, reports) && t.version >= VersionAfter(version, reports)
    requires t.version == VersionAfter(version, reports) ==> t.base == ChainAfter(c, reports)
    ensures IsHistory(c, version, reports + [t])
    ensures ChainAfter(c, reports + [t]) == t.Result() && VersionAfter(version, reports + [t]) == t.version
  {
    var longer := reports + [t];
    forall i | 0 <= i < |longer|
      ensures longer[..i] == reports[..i]
    {
    }
    assert longer[..|reports|] == reports;
  }

  /** The reports are those of the first turns, one tick each. */
  ghost predicate AreTurns(w: World, keys: Keys, difficulty: uint64, script: seq<Tick>, reports: seq<Report>) {
    && |reports| <= |script|
    && forall i :: 0 <= i < |reports| ==> IsTurn(w, keys, difficulty, script[i], reports[i])
  }

  /** The search of the last turn tried every nonce in vain. */
  ghost predicate EndsFruitless(w: World, difficulty: uint64, script: seq<Tick>, reports: seq<Report>) {
    && 0 < |reports| <= |script|
    && var last := reports[|reports| - 1];
       Exhausts(w, difficulty, last.next, script[|reports| - 1].flags, last.version)
  }

  lemma OneMoreTurn(w: World, keys: Keys, difficulty: uint64, script: seq<Tick>, reports: seq<Report>, t: Report)
    requires AreTurns(w, keys, difficulty, script, reports) && |reports| < |script|
    requires IsTurn(w, keys, difficulty, script[|reports|], t)
    ensures AreTurns(w, keys, difficulty, script, reports + [t])
    ensures EndsFruitless(w, difficulty, script, reports + [t]) <==>
            Exhausts(w, difficulty, t.next, script[|reports|].flags, t.version)
  {
    hide IsTurn, Exhausts;
  }

  ghost predicate AllQuiet(script: seq<Tick>) {
    forall t :: t in script ==> Quiet(t)
  }

  lemma AllQuietStep(script: seq<Tick>, i: nat)
    requires i < |script|
    ensures AllQuiet(script[..i + 1]) <==> AllQuiet(script[..i]) && Quiet(script[i])
    ensures AllQuiet(script[..0]) && script[..|script|] == script
  {
    hide Quiet;
    assert script[..i + 1] == script[..i] + [script[i]];
  }

  /** All the blocks mined, in order. */
  function AllMined(reports: seq<Report>): seq<Block> {
    if reports == [] then
      []
    else
      var last := reports[|reports| - 1];
      AllMined(reports[..|reports| - 1]) + if last.mined.Some? then [last.mined.value] else []
  }

  lemma OneMoreMined(reports: seq<Report>, t: Report, c: Chain)
    requires t.base == c
    ensures t.Result() == c.(blocks := c.blocks + if t.mined.Some? then [t.mined.value] else [])
    ensures AllMined(reports + [t]) == AllMined(reports) + if t.mined.Some? then [t.mined.value] else []
  {
    assert (reports + [t])[..|reports|] == reports;
    assert c.blocks + [] == c.blocks;
  }

  /** The stop flag is seen, and the loop left with the code as it is. */
  lemma Stop(w: World, keys: Keys, difficulty: uint64, start: Trace, r: Trace, s: State, turns: nat)
    requires SigningWorks(w, keys) && SafeRunTo(w, keys, difficulty, r, s) && s.phase == Polling
    requires Continues(start, r, turns)
    ensures var t := s.(phase := Exited(s.code));
            && SafeRunTo(w, keys, difficulty, Extended(r, MinerActs, t), t)
            && Continues(start, Extended(r, MinerActs, t), turns)
  {
    hide SafeRunTo, Turns;
    var t := s.(phase := Exited(s.code));
    ExtendRun(w, keys, difficulty, r, s, MinerActs, t);
    ContinueOn(start, r, Extended(r, MinerActs, t), turns, 0);
  }

  lemma StartRun(w: World, keys: Keys, difficulty: uint64, s: State)
    requires Safe(w, difficulty, s)
    ensures SafeRunTo(w, keys, difficulty, Trace([s], []), s)
    ensures Continues(Trace([s], []), Trace([s], []), 0) && Turns(Trace([s], [])) == 0
  {
    hide Safe;
  }

  lemma SafeExit(
      w: World, keys: Keys, difficulty: uint64, start: Trace, r: Trace, s: State, turns: nat)
    requires SafeRunTo(w, keys, difficulty, r, s) && s.phase.Exited?
    requires Continues(start, r, turns) && start.events == [] && Turns(start) == 0
    requires start.states[0].code == Success && start.states[0].phase == Polling
    ensures r.states != [] && r.states[0] == start.states[0]
    ensures IsRun(w, keys, r) && r.states[|r.states| - 1] == s && Turns(r) == turns
    ensures s.phase.code in {Success, CouldNotFindValidProofOfWork, OpensslFunction}
    ensures s.code in {Success, CouldNotFindValidProofOfWork}
    ensures s.phase.code == CouldNotFindValidProofOfWork <==> FruitlessLast(w, r, |r.events|)
    ensures forall t :: t in r.states ==> Safe(w, difficulty, t)
  {
    hide Next, Usable, FruitlessLast, Turns;
    CodeTellsTheLastSearch(w, keys, r, |r.events|);
  }

  lemma AllQuietPrefix(script: seq<Tick>, i: nat)
    requires i <= |script|
    ensures AllQuiet(script) ==> AllQuiet(script[..i])
  {
    hide Quiet;
  }

  lemma NothingDone(
      w: World, keys: Keys, difficulty: uint64, script: seq<Tick>, c: Chain, version: nat)
    ensures AreTurns(w, keys, difficulty, script, []) && !EndsFruitless(w, difficulty, script, [])
    ensures IsHistory(c, version, []) && ChainAfter(c, []) == c && VersionAfter(version, []) == version
    ensures c.(blocks := c.blocks + AllMined([])) == c
  {
    assert c.blocks + [] == c.blocks;
  }

  /** The loop of `mine_blocks`: one turn per tick, up to the first at which the stop flag is seen. */
  method RunTurns(
      w: World, keys: Keys, ghost difficulty: uint64, sync: SynchronizedBlockchain, local: Blockchain,
      versionMined: nat, script: seq<Tick>, ghost start: Trace, ghost s: State)
    returns (code: ReturnCode, exited: bool, ghost turns: nat, ghost reports: seq<Report>, local': Blockchain,
             ghost r: Trace, ghost s': State)
    requires SigningWorks(w, keys) && difficulty <= DIGEST_LENGTH
    requires forall t :: t in script ==> TickPermitted(w, difficulty, t)
    requires SafeRunTo(w, keys, difficulty, start, s) && Continues(start, start, 0) && Shows(sync, local, s.Chains())
    requires s.phase == Polling && s.versionMined == versionMined && s.code == Success
    requires local == sync.blockchain
    modifies sync, local.blockList.Repr
    ensures SafeRunTo(w, keys, difficulty, r, s') && Shows(sync, local', s'.Chains()) && Continues(start, r, turns)
    ensures s'.phase == if exited then Exited(code) else Polling
    ensures if exited then code == OpensslFunction else s'.code == code
    ensures exited <==> turns > 0 && turns <= |script| && CannotSign(w, keys, script[turns - 1].now)
    ensures turns <= |script| && forall i :: 0 <= i < turns ==> !script[i].shouldStop
    ensures exited || turns == |script| || script[turns].shouldStop
    ensures |reports| == (if exited then turns - 1 else turns) && IsHistory(old(local.Value()), versionMined, reports)
    ensures AreTurns(w, keys, difficulty, script, reports)
    ensures reports != [] ==> reports[0].version >= old(sync.version)
    ensures !exited ==> local'.Value() == ChainAfter(old(local.Value()), reports)
    ensures code == CouldNotFindValidProofOfWork <==>
            !exited && EndsFruitless(w, difficulty, script, reports)
    ensures AllQuiet(script) ==>
              && sync.version == old(sync.version)
              && sync.blockchain == local' == local
              && local.Value() == old(local.Value()).(blocks := old(local.Value()).blocks + AllMined(reports))
  {
    hide SafeRunTo, Turns, Continues, TickPermitted, Safe, Shows, LinkedList.Valid, IsTurn, Quiet, CannotSign,
      IsHistory, ChainAfter, VersionAfter, AllMined, Report.Result, AreTurns, AllQuiet, Exhausts, EndsFruitless;
    ghost var owned := local.blockList.Repr;
    ghost var c := local.Value();
    var version := versionMined;
    var i := 0;
    code, exited, reports, local', r, s' := Success, false, [], local, start, s;
    NothingDone(w, keys, difficulty, script, c, versionMined);
    while i < |script| && !script[i].shouldStop && !exited
      invariant 0 <= i <= |script|
      invariant SafeRunTo(w, keys, difficulty, r, s') && Shows(sync, local', s'.Chains())
      invariant s'.phase == if exited then Exited(code) else Polling
      invariant if exited then code == OpensslFunction else s'.versionMined == version && s'.code == code
      invariant exited <==> i > 0 && CannotSign(w, keys, script[i - 1].now)
      invariant Continues(start, r, i)
      invariant forall k :: 0 <= k < i ==> !script[k].shouldStop
      invariant fresh(sync.blockchain.blockList.Repr - owned) && fresh(local'.blockList.Repr - owned)
      invariant |reports| == (if exited then i - 1 else i) && IsHistory(c, versionMined, reports)
      invariant AreTurns(w, keys, difficulty, script, reports)
      invariant sync.version >= old(sync.version) && (reports != [] ==> reports[0].version >= old(sync.version))
      invariant code == CouldNotFindValidProofOfWork <==>
                  !exited && EndsFruitless(w, difficulty, script, reports)
      invariant !exited ==> local'.Value() == ChainAfter(c, reports) && version == VersionAfter(versionMined, reports)
      invariant AllQuiet(script[..i]) ==>
                  && sync.version == old(sync.version)
                  && sync.blockchain == local' == local
                  && local.Value() == c.(blocks := c.blocks + AllMined(reports))
    {
      assert script[i] in script;
      AllQuietStep(script, i);
      ghost var before, chain := r, local'.Value();
      ghost var report: Option<Report>;
      code, exited, local', version, report, r, s' :=
        OneTurn(w, keys, difficulty, sync, local', version, script[i], r, s');
      ContinueOn(start, before, r, i, 1);
      if report.Some? {
        OneMoreTurn(w, keys, difficulty, script, reports, report.value);
        ExtendHistory(c, versionMined, reports, report.value);
        if report.value.base == chain {
          OneMoreMined(reports, report.value, chain);
        }
        reports := reports + [report.value];
      }
      i := i + 1;
    }
    turns := i;
    AllQuietPrefix(script, i);
  }

  /** `mine_blocks`, for one turn of its loop per tick; with no tick left the stop flag is seen. The
      execution is a run of the node, so what holds of every run holds of it. */
  method MineBlocks(
      w: World, keys: Keys, sync: SynchronizedBlockchain, initialVersionMined: nat, script: seq<Tick>)
    returns (code: ReturnCode, ghost local: Blockchain, ghost reports: seq<Report>, ghost r: Trace)
    requires SigningWorks(w, keys)
    requires sync.Valid() && Usable(w, sync.blockchain.difficulty, sync.blockchain.Value())
    requires sync.blockchain.difficulty <= DIGEST_LENGTH && initialVersionMined <= sync.version
    requires forall t :: t in script ==> TickPermitted(w, sync.blockchain.difficulty, t)
    modifies sync, sync.blockchain.blockList.Repr
    ensures IsRun(w, keys, r)
    ensures r.states[0] ==
            State(old(sync.blockchain.Value()), old(sync.version), old(sync.blockchain.Value()), true,
                  initialVersionMined, Success, Polling)
    ensures var last := r.states[|r.states| - 1]; Shows(sync, local, last.Chains()) && last.phase == Exited(code)
    ensures forall s :: s in r.states ==> Safe(w, old(sync.blockchain.difficulty), s)
    ensures code in {Success, CouldNotFindValidProofOfWork, OpensslFunction}
    // One turn per tick, up to the first at which the stop flag is seen, unless signing fails.
    ensures Turns(r) <= |script| && forall i :: 0 <= i < Turns(r) ==> !script[i].shouldStop
    ensures code == OpensslFunction || Turns(r) == |script| || script[Turns(r)].shouldStop
    // It returns a fruitless search's code exactly when its last search was one.
    ensures code == CouldNotFindValidProofOfWork <==> FruitlessLast(w, r, |r.events|)
    ensures code != OpensslFunction ==>
              (code == CouldNotFindValidProofOfWork <==>
               EndsFruitless(w, old(sync.blockchain.difficulty), script, reports))
    ensures code == OpensslFunction <==> Turns(r) > 0 && CannotSign(w, keys, script[Turns(r) - 1].now)
    // Every other turn builds the next block and searches for a nonce, and what it finds is on its chain.
    ensures |reports| == Turns(r) - if code == OpensslFunction then 1 else 0
    ensures AreTurns(w, keys, old(sync.blockchain.difficulty), script, reports)
    ensures IsHistory(old(sync.blockchain.Value()), initialVersionMined, reports)
    ensures reports != [] ==> reports[0].version >= old(sync.version)
    ensures code != OpensslFunction ==> local.Value() == ChainAfter(old(sync.blockchain.Value()), reports)
    // A miner left alone extends the shared chain by exactly the blocks that it mines.
    ensures AllQuiet(script) ==>
              && sync.version == old(sync.version) && sync.blockchain == old(sync.blockchain) == local
              && sync.blockchain.Value().blocks == old(sync.blockchain.Value().blocks) + AllMined(reports)
  {
    hide SafeRunTo, Turns, Continues, IsRun, TickPermitted, FruitlessLast, LinkedList.Valid, AreTurns, IsHistory,
      CannotSign, AllMined, ChainAfter, AllQuiet, EndsFruitless;
    ghost var difficulty := sync.blockchain.difficulty;
    var chain := sync.blockchain;
    ghost var s :=
      State(chain.Value(), sync.version, chain.Value(), true, initialVersionMined, Success, Polling);
    ghost var start := Trace([s], []);
    StartRun(w, keys, difficulty, s);
    hide Shows, Usable, Safe;
    var exited;
    ghost var turns;
    code, exited, turns, reports, chain, r, s :=
      RunTurns(w, keys, difficulty, sync, chain, initialVersionMined, script, start, s);
    if !exited {
      Stop(w, keys, difficulty, start, r, s, turns);
      s := s.(phase := Exited(code));
      r := Extended(r, MinerActs, s);
    }
    local := chain;
    SafeExit(w, keys, difficulty, start, r, s, turns);
  }
}
