/** A node at work: the miner's atomic actions interleaved with other threads that replace the shared
    chain (src/mining_thread.c with src/consensus_peer_server_thread.c). */
module Interleavings {
  import opened Blockchains
  import opened Bytes
  import opened Consensus
  import opened Ledger
  import opened ReturnCodes
  import opened Validity

  datatype Keys = Keys(publicKey: Key, privateKey: Key)

  /** The minting transaction that `transaction_create` signs, if signing succeeds. */
  function Mint(w: World, keys: Keys, now: int64): Option<Transaction> {
    var unsigned := Transaction(
      now, keys.publicKey, keys.publicKey, AMOUNT_GENERATED_DURING_MINTING, 0, Zeros(SIGNATURE_LENGTH));
    match w.sign(unsigned, keys.privateKey)
    case None => None
    case Some((length, bytes)) => Some(unsigned.(signatureLength := length, signature := bytes))
  }

  /** A transaction of one coin from the miner to itself, with the signature that its private key gives. */
  predicate PaysTheMiner(w: World, keys: Keys, now: int64, t: Transaction) {
    && t.createdAt == now
    && t.sender == keys.publicKey
    && t.recipient == keys.publicKey
    && t.amount == 1
    && w.sign(t.(signatureLength := 0, signature := Zeros(512)), keys.privateKey) ==
       Some((t.signatureLength, t.signature))
  }

  predicate CannotSign(w: World, keys: Keys, now: int64) {
    w.sign(Transaction(now, keys.publicKey, keys.publicKey, 1, 0, Zeros(512)), keys.privateKey) == None
  }

  /** What is minted pays the miner, and nothing is minted exactly when the private key cannot sign. */
  lemma MintPaysTheMiner(w: World, keys: Keys, now: int64)
    ensures Mint(w, keys, now) == None <==> CannotSign(w, keys, now)
    ensures Mint(w, keys, now).Some? ==> PaysTheMiner(w, keys, now, Mint(w, keys, now).value)
    ensures forall t :: PaysTheMiner(w, keys, now, t) ==> Mint(w, keys, now) == Some(t)
  {
    forall t | PaysTheMiner(w, keys, now, t)
      ensures Mint(w, keys, now) == Some(t)
    {
      assert t.(signatureLength := 0, signature := Zeros(512)) ==
             Transaction(now, keys.publicKey, keys.publicKey, 1, 0, Zeros(512));
    }
  }

  /** The keys belong together: what one signs, in at most 512 bytes, the other verifies. */
  ghost predicate SigningWorks(w: World, keys: Keys) {
    forall now: int64 :: Mint(w, keys, now).Some? ==> CheckSignature(w, Mint(w, keys, now).value) == Accepted
  }

  lemma SigningWorksOnThePlatform(w: World, keys: Keys)
    ensures SigningWorks(w, keys) <==>
            forall now, t :: PaysTheMiner(w, keys, now, t) ==> PlatformAccepts(w, t)
  {
    hide Mint, CheckSignature, PaysTheMiner, PlatformAccepts;
    forall now, t | PaysTheMiner(w, keys, now, t)
      ensures Mint(w, keys, now) == Some(t)
    {
      MintPaysTheMiner(w, keys, now);
    }
    forall now: int64 | Mint(w, keys, now).Some?
      ensures PaysTheMiner(w, keys, now, Mint(w, keys, now).value)
    {
      MintPaysTheMiner(w, keys, now);
    }
    forall t
      ensures CheckSignature(w, t) == Accepted <==> PlatformAccepts(w, t)
    {
      AcceptanceIsThePlatforms(w, t);
    }
  }

  /** What the miner is about to do. Each phase ends with one access to what other threads share. */
  datatype Phase =
    | Polling  // look at the stop flag and compare versions
    | Reloading  // read the shared chain pointer
    | Recording  // destroy the old chain and record the shared version
    | Checking  // verify the local chain and build the next block
    | Starting(next: Block)  // read the shared difficulty
    | Mining(candidate: Block, difficulty: uint64)  // search for a nonce
    | Appending(block: Block)  // append to the local chain
    | Exited(code: ReturnCode)
    | Lost  // nothing is defined from here on

  /** The part of the state that lives in the shared structure and in the blockchain objects. */
  datatype ChainsView = ChainsView(shared: Chain, version: nat, local: Chain, aliased: bool)

  /** `aliased` holds when the miner's chain pointer is the shared one. */
  datatype State = State(
    shared: Chain, version: nat,
    local: Chain, aliased: bool, versionMined: nat,
    code: ReturnCode, phase: Phase)
  {
    function Chains(): ChainsView {
      ChainsView(shared, version, local, aliased)
    }
  }

  /** An action of another thread: it publishes a chain, or the consensus server is offered one. */
  datatype Outside = Publish(chain: Chain) | Offer(chain: Chain)

  datatype Event = MinerActs | OthersAct(action: Outside)

  /** What follows from checking the local chain at the times `now` and `later`. */
  function AfterCheck(w: World, keys: Keys, local: Chain, now: int64, later: int64): Phase {
    match VerdictOf(w, local)
    case VerifyFailed(code) => Exited(code)
    case Invalid(Some(_)) => Exited(InvalidBlockchain)
    case Invalid(None) => Lost  // the miner prints the block that was not reported
    case Undefined => Lost
    case Valid =>
      if local.blocks == [] then
        Exited(LinkedListEmpty)
      else
        match Mint(w, keys, now)
        case None => Exited(OpensslFunction)
        case Some(t) => Starting(Block(later, [t], 0, Hash(w, local.blocks[|local.blocks| - 1])))
  }

  ghost predicate MinerStep(w: World, keys: Keys, s: State, t: State) {
    match s.phase
    case Polling =>
      || t == s.(phase := Exited(s.code))
      || t == s.(phase := if s.versionMined != s.version then Reloading else Checking)
    case Reloading =>
      t == s.(local := s.shared, aliased := true, phase := Recording)
    case Recording =>
      t == s.(versionMined := s.version, code := Success, phase := Checking)
    case Checking =>
      exists now, later :: t == s.(code := Success, phase := AfterCheck(w, keys, s.local, now, later))
    case Starting(block) =>
      t == s.(phase := Mining(block, s.shared.difficulty))
    case Mining(block, difficulty) =>
      // stopped, or a new version was seen
      || t == s.(phase := Polling)
      // no nonce at all, which the return code remembers
      || (&& t == s.(code := CouldNotFindValidProofOfWork, phase := Polling)
          && forall k :: 0 <= k < NONCE_LIMIT ==> !Proves(w, difficulty, block, k))
      || exists k :: 0 <= k < NONCE_LIMIT && Proves(w, difficulty, block, k)
                     && t == s.(phase := Appending(WithProof(block, k)))
    case Appending(block) =>
      var extended := s.local.(blocks := s.local.blocks + [block]);
      t == s.(local := extended, shared := if s.aliased then extended else s.shared, phase := Polling)
    case Exited(_) => false
    case Lost => false
  }

  /** Other threads replace the shared chain by a fresh one, and count it. */
  function Replaced(s: State, c: Chain): State {
    s.(shared := c, version := s.version + 1, aliased := false)
  }

  function AfterOthers(w: World, s: State, a: Outside): State {
    match a
    case Publish(c) => Replaced(s, c)
    case Offer(c) => if Better(w, s.shared, c) then Replaced(s, c) else s
  }

  predicate Usable(w: World, difficulty: uint64, c: Chain) {
    ValidChain(w, c) && c.blocks != [] && c.difficulty == difficulty
  }

  /** Publishing is only for usable chains; the consensus server may be offered anything. */
  predicate Permitted(w: World, difficulty: uint64, a: Outside) {
    a.Publish? ==> Usable(w, difficulty, a.chain)
  }

  ghost predicate Next(w: World, keys: Keys, s: State, e: Event, t: State) {
    match e
    case MinerActs => MinerStep(w, keys, s, t)
    case OthersAct(a) => Permitted(w, s.shared.difficulty, a) && t == AfterOthers(w, s, a)
  }

  /** What the consensus server makes of a request is an offer, or nothing. */
  lemma RequestIsOffer(w: World, s: State, stream: seq<byte>)
    ensures var before := Shared(s.shared, s.version);
            var after := Consensus.Step(w, before, stream);
            || after == before
            || (&& PeerChain(stream).Ok?
                && var t := AfterOthers(w, s, Offer(PeerChain(stream).value)); after == Shared(t.shared, t.version))
  {
    hide PeerChain, VerdictOf, Better;
  }

  datatype Trace = Trace(states: seq<State>, events: seq<Event>)

  /** A run of the node, in any interleaving. */
  ghost predicate IsRun(w: World, keys: Keys, r: Trace) {
    && |r.states| == |r.events| + 1
    && forall i, j :: 0 <= i < |r.events| && j == i + 1 ==> Next(w, keys, r.states[i], r.events[i], r.states[j])
  }

  // What every step keeps.

  predicate ExtendsTip(w: World, c: Chain, b: Block) {
    && c.blocks != []
    && b.previousBlockHash == Hash(w, c.blocks[|c.blocks| - 1])
    && b.transactions != []
    && IsMinting(b.transactions[0])
    && AllSigned(w, b.transactions)
  }

  predicate Safe(w: World, difficulty: uint64, s: State) {
    && Usable(w, difficulty, s.shared)
    && Usable(w, difficulty, s.local)
    && (s.aliased ==> s.shared == s.local)
    && s.versionMined <= s.version
    && s.code in {Success, CouldNotFindValidProofOfWork}
    && match s.phase
       case Starting(b) => ExtendsTip(w, s.local, b)
       case Mining(b, d) => ExtendsTip(w, s.local, b) && d == difficulty
       case Appending(b) => ExtendsTip(w, s.local, b) && MeetsDifficulty(difficulty, Hash(w, b))
       case Exited(code) => code in {Success, CouldNotFindValidProofOfWork, OpensslFunction}
       case Lost => false
       case _ => true
  }

  lemma CheckOfValidChain(w: World, keys: Keys, c: Chain, now: int64, later: int64)
    requires SigningWorks(w, keys) && ValidChain(w, c) && c.blocks != []
    ensures match AfterCheck(w, keys, c, now, later)
            case Exited(code) => code == OpensslFunction && Mint(w, keys, now) == None
            case Starting(b) => ExtendsTip(w, c, b)
            case _ => false
  {
    hide Hash, ValidChain, VerdictOf;
    VerdictIsValidity(w, c);
    var m := Mint(w, keys, now);
    if m.Some? {
      assert CheckSignature(w, m.value) == Accepted;
    }
  }

  lemma StepKeepsSafe(w: World, keys: Keys, difficulty: uint64, s: State, e: Event, t: State)
    requires SigningWorks(w, keys)
    requires Safe(w, difficulty, s) && Next(w, keys, s, e, t)
    ensures Safe(w, difficulty, t)
  {
    hide Hash, HashedBytes, ValidChain, MeetsDifficulty, VerdictOf, Mint;
    if e == MinerActs {
      match s.phase
      case Checking =>
        var now, later :| t == s.(code := Success, phase := AfterCheck(w, keys, s.local, now, later));
        CheckOfValidChain(w, keys, s.local, now, later);
      case Appending(b) =>
        ExtensionValidity(w, s.local, b);
      case _ =>
    }
  }

  /** The block that the miner builds on a valid chain extends it to a valid chain exactly when its
      nonce proves it and its minting transaction verifies. */
  lemma MinedBlockExtends(w: World, keys: Keys, c: Chain, now: int64, later: int64, nonce: uint64)
    requires ValidChain(w, c) && AfterCheck(w, keys, c, now, later).Starting?
    ensures var b := WithProof(AfterCheck(w, keys, c, now, later).next, nonce);
            ValidChain(w, c.(blocks := c.blocks + [b])) <==>
            && Proves(w, c.difficulty, AfterCheck(w, keys, c, now, later).next, nonce)
            && CheckSignature(w, b.transactions[0]) == Accepted
  {
    hide Hash, ValidChain, VerdictOf;
    ExtensionValidity(w, c, WithProof(AfterCheck(w, keys, c, now, later).next, nonce));
  }

  /** In every interleaving the shared chain and the miner's chain stay valid and non-empty, with the
      same difficulty, and the miner never exits because its chain is invalid or empty. */
  lemma {:induction false} RunsAreSafe(w: World, keys: Keys, difficulty: uint64, r: Trace, i: nat)
    requires SigningWorks(w, keys) && IsRun(w, keys, r) && Safe(w, difficulty, r.states[0])
    requires i < |r.states|
    ensures Safe(w, difficulty, r.states[i])
  {
    hide Safe, Next;
    if i > 0 {
      RunsAreSafe(w, keys, difficulty, r, i - 1);
      StepKeepsSafe(w, keys, difficulty, r.states[i - 1], r.events[i - 1], r.states[i]);
    }
  }

  /** So at every moment, while the miner extends the shared chain and others replace it, the consensus
      server's message carries that chain to the peer. */
  lemma SharedChainAlwaysDecodes(
      w: World, keys: Keys, difficulty: uint64, r: Trace, i: nat, rest: seq<byte>)
    requires SigningWorks(w, keys) && IsRun(w, keys, r) && Safe(w, difficulty, r.states[0])
    requires i < |r.states| && Storable(r.states[i].shared)
    ensures PeerChain(Message(r.states[i].shared) + rest) == Ok(r.states[i].shared)
  {
    hide Next, ValidChain, PeerChain, Message, Storable;
    RunsAreSafe(w, keys, difficulty, r, i);
    ValidChainsFit(w, r.states[i].shared);
    MessageRoundTrip(r.states[i].shared, rest);
  }

  /** No step makes the shared chain shorter, changes its difficulty, or rewrites it under the same version. */
  ghost predicate Grows(s: State, t: State) {
    && |s.shared.blocks| <= |t.shared.blocks|
    && s.version <= t.version
    && s.shared.difficulty == t.shared.difficulty
    && (s.version == t.version ==> s.shared.blocks <= t.shared.blocks)
  }

  lemma StepGrows(w: World, keys: Keys, difficulty: uint64, s: State, e: Event, t: State)
    requires Safe(w, difficulty, s) && Next(w, keys, s, e, t)
    requires e == MinerActs || e.action.Offer?
    ensures Grows(s, t)
  {
    hide Hash, MeetsDifficulty, ValidChain, VerdictOf, Mint, Proves;
  }

  /** When chains come only through the consensus server, that holds between any two moments of a run. */
  lemma {:induction false} SharedChainGrows(w: World, keys: Keys, difficulty: uint64, r: Trace, i: nat, j: nat)
    requires SigningWorks(w, keys) && IsRun(w, keys, r) && Safe(w, difficulty, r.states[0])
    requires forall k :: 0 <= k < |r.events| ==> r.events[k] == MinerActs || r.events[k].action.Offer?
    requires i <= j < |r.states|
    ensures Grows(r.states[i], r.states[j])
    decreases j
  {
    hide Safe, Next;
    if i < j {
      SharedChainGrows(w, keys, difficulty, r, i, j - 1);
      RunsAreSafe(w, keys, difficulty, r, j - 1);
      StepGrows(w, keys, difficulty, r.states[j - 1], r.events[j - 1], r.states[j]);
    }
  }

  // What the miner's return code says when it stops.

  /** Step `k` ends a search because no nonce proves the candidate. */
  ghost predicate FruitlessAt(w: World, r: Trace, k: int)
    requires |r.states| == |r.events| + 1
  {
    && 0 <= k < |r.events|
    && r.events[k] == MinerActs
    && r.states[k].phase.Mining?
    && (forall n :: 0 <= n < NONCE_LIMIT ==>
          !Proves(w, r.states[k].phase.difficulty, r.states[k].phase.candidate, n))
    && r.states[k + 1] == r.states[k].(code := CouldNotFindValidProofOfWork, phase := Polling)
  }

  /** The miner destroys its old chain or checks the one it has, and either call fills in the code. */
  ghost predicate OverwritesCode(s: State, e: Event) {
    e == MinerActs && (s.phase == Recording || s.phase == Checking)
  }

  /** Between the steps `k` and `i` the code is not overwritten. */
  ghost predicate CodeKeptBetween(r: Trace, k: int, i: int)
    requires |r.states| == |r.events| + 1
  {
    forall m :: k < m < i && 0 <= m < |r.events| ==> !OverwritesCode(r.states[m], r.events[m])
  }

  /** The last search before the moment `i` was fruitless, and the next turn has not yet overwritten that. */
  ghost predicate FruitlessLast(w: World, r: Trace, i: int)
    requires |r.states| == |r.events| + 1
  {
    exists k :: FruitlessAt(w, r, k) && k < i && CodeKeptBetween(r, k, i)
  }

  /** The code is that of a fruitless search or of success. It is success while a turn is under way. */
  predicate CodeFits(s: State) {
    && s.code in {Success, CouldNotFindValidProofOfWork}
    && (s.phase.Starting? || s.phase.Mining? || s.phase.Appending? ==> s.code == Success)
    && (s.phase.Exited? ==>
          (s.phase.code == CouldNotFindValidProofOfWork <==> s.code == CouldNotFindValidProofOfWork))
  }

  lemma StepKeepsCodeFits(w: World, keys: Keys, r: Trace, i: nat)
    requires IsRun(w, keys, r) && i < |r.events| && CodeFits(r.states[i])
    ensures CodeFits(r.states[i + 1])
    ensures r.states[i + 1].code == CouldNotFindValidProofOfWork <==>
            || FruitlessAt(w, r, i)
            || (&& r.states[i].code == CouldNotFindValidProofOfWork
                && !OverwritesCode(r.states[i], r.events[i]))
  {
    hide Better, Usable, Proves, Mint, FirstBad, FirstUnsigned, Hash, MeetsDifficulty;
    assert Next(w, keys, r.states[i], r.events[i], r.states[i + 1]);
  }

  lemma FruitlessIsAtStep(w: World, r: Trace, k: int)
    requires |r.states| == |r.events| + 1 && FruitlessAt(w, r, k)
    ensures 0 <= k < |r.events|
  {
  }

  lemma FruitlessLastStep(w: World, r: Trace, i: nat)
    requires |r.states| == |r.events| + 1 && i < |r.events|
    ensures FruitlessLast(w, r, i + 1) <==>
            || FruitlessAt(w, r, i)
            || (FruitlessLast(w, r, i) && !OverwritesCode(r.states[i], r.events[i]))
  {
    hide FruitlessAt;
    if k :| FruitlessAt(w, r, k) && k < i + 1 && CodeKeptBetween(r, k, i + 1) {
      if k < i {
        FruitlessIsAtStep(w, r, k);
        assert CodeKeptBetween(r, k, i);
      }
    }
    if FruitlessAt(w, r, i) {
      assert CodeKeptBetween(r, i, i + 1);
    }
    if FruitlessLast(w, r, i) && !OverwritesCode(r.states[i], r.events[i]) {
      var k :| FruitlessAt(w, r, k) && k < i && CodeKeptBetween(r, k, i);
      assert CodeKeptBetween(r, k, i + 1);
    }
  }

  lemma NothingBeforeTheStart(w: World, r: Trace)
    requires |r.states| == |r.events| + 1
    ensures !FruitlessLast(w, r, 0)
  {
  }

  /** At every moment of a run the code is that of a fruitless search exactly when the last search was
      one, and a miner that has exited returns that code exactly then. */
  lemma {:induction false} CodeTellsTheLastSearch(w: World, keys: Keys, r: Trace, i: nat)
    requires IsRun(w, keys, r) && r.states[0].code == Success && r.states[0].phase == Polling
    requires i < |r.states|
    ensures CodeFits(r.states[i])
    ensures r.states[i].code == CouldNotFindValidProofOfWork <==> FruitlessLast(w, r, i)
    ensures r.states[i].phase.Exited? ==>
              (r.states[i].phase.code == CouldNotFindValidProofOfWork <==> FruitlessLast(w, r, i))
  {
    hide Next, FruitlessAt, CodeKeptBetween;
    if i == 0 {
      NothingBeforeTheStart(w, r);
    } else {
      CodeTellsTheLastSearch(w, keys, r, i - 1);
      StepKeepsCodeFits(w, keys, r, i - 1);
      FruitlessLastStep(w, r, i - 1);
    }
  }

  /** And it happens: a miner whose next block no nonce proves, when asked to stop right after finding
      that out, returns that code. */
  lemma FruitlessExitIsReachable(w: World, keys: Keys, c: Chain, now: int64, later: int64) returns (r: Trace)
    requires Usable(w, c.difficulty, c) && AfterCheck(w, keys, c, now, later).Starting?
    requires forall n :: 0 <= n < NONCE_LIMIT ==>
               !Proves(w, c.difficulty, AfterCheck(w, keys, c, now, later).next, n)
    ensures IsRun(w, keys, r) && |r.events| == 5 && forall e :: e in r.events ==> e == MinerActs
    ensures r.states[0] == State(c, 0, c, true, 0, Success, Polling) && Safe(w, c.difficulty, r.states[0])
    ensures r.states[5].phase == Exited(CouldNotFindValidProofOfWork)
  {
    hide ValidChain, AfterCheck, Proves;
    var next := AfterCheck(w, keys, c, now, later).next;
    var s0 := State(c, 0, c, true, 0, Success, Polling);
    var s1 := s0.(phase := Checking);
    var s2 := s1.(code := Success, phase := AfterCheck(w, keys, c, now, later));
    var s3 := s2.(phase := Mining(next, c.difficulty));
    var s4 := s3.(code := CouldNotFindValidProofOfWork, phase := Polling);
    var s5 := s4.(phase := Exited(CouldNotFindValidProofOfWork));
    r := Trace([s0, s1, s2, s3, s4, s5], [MinerActs, MinerActs, MinerActs, MinerActs, MinerActs]);
    assert Next(w, keys, s0, MinerActs, s1);
    assert Next(w, keys, s1, MinerActs, s2);
    assert Next(w, keys, s2, MinerActs, s3);
    assert Next(w, keys, s3, MinerActs, s4);
    assert Next(w, keys, s4, MinerActs, s5);
  }

  // Does the version that the miner recorded say that it mines the shared chain?

  predicate Current(s: State) {
    s.versionMined == s.version ==> s.aliased
  }

  /** The shared chain is replaced after the miner reads the pointer and before it records the version. */
  predicate ReplacedWhileRecording(w: World, s: State, e: Event) {
    s.phase == Recording && e.OthersAct? && AfterOthers(w, s, e.action) != s
  }

  predicate InStep(s: State) {
    Current(s) && s.versionMined <= s.version && (s.phase == Recording ==> s.aliased)
  }

  /** It does, as long as no replacement falls in that window. */
  lemma {:induction false} VersionTellsTheChain(w: World, keys: Keys, r: Trace, i: nat)
    requires IsRun(w, keys, r) && InStep(r.states[0])
    requires forall k :: 0 <= k < |r.events| ==> !ReplacedWhileRecording(w, r.states[k], r.events[k])
    requires i < |r.states|
    ensures InStep(r.states[i])
  {
    hide Better, Usable, VerdictOf, Mint, Proves;
    if i > 0 {
      VersionTellsTheChain(w, keys, r, i - 1);
      assert Next(w, keys, r.states[i - 1], r.events[i - 1], r.states[i]);
      assert !ReplacedWhileRecording(w, r.states[i - 1], r.events[i - 1]);
    }
  }

  /** The miner took an older chain for the current one. */
  predicate Stale(s: State) {
    s.versionMined == s.version && !s.aliased && !s.phase.Reloading? && !s.phase.Recording?
  }

  lemma {:induction false} WindowKeepsRecording(w: World, keys: Keys, r: Trace, n: nat)
    requires IsRun(w, keys, r) && n <= |r.events|
    requires r.states[0].phase == Recording && r.states[0].aliased
    requires forall k :: 0 <= k < n ==> r.events[k].OthersAct?
    ensures r.states[n].phase == Recording
    ensures r.states[n].aliased <==>
            forall k :: 0 <= k < n ==> !ReplacedWhileRecording(w, r.states[k], r.events[k])
  {
    hide Better, Usable;
    if n > 0 {
      WindowKeepsRecording(w, keys, r, n - 1);
      assert Next(w, keys, r.states[n - 1], r.events[n - 1], r.states[n]);
    }
  }

  /** The window from reading the pointer to recording the version: afterwards the version tells the
      chain exactly when no replacement fell in it. */
  lemma {:induction false} RecordingIsCurrentIffUndisturbed(w: World, keys: Keys, r: Trace, n: nat)
    requires IsRun(w, keys, r) && |r.events| == n + 1
    requires r.states[0].phase == Recording && r.states[0].aliased
    requires (forall k :: 0 <= k < n ==> r.events[k].OthersAct?) && r.events[n] == MinerActs
    ensures Current(r.states[n + 1]) <==>
            forall k :: 0 <= k < n ==> !ReplacedWhileRecording(w, r.states[k], r.events[k])
    ensures !Current(r.states[n + 1]) ==> Stale(r.states[n + 1])
  {
    hide Better, Usable;
    WindowKeepsRecording(w, keys, r, n);
    assert Next(w, keys, r.states[n], r.events[n], r.states[n + 1]);
  }

  lemma StaleStep(w: World, keys: Keys, s: State, e: Event, t: State)
    requires Stale(s) && Next(w, keys, s, e, t)
    requires e.OthersAct? ==> AfterOthers(w, s, e.action) == s
    ensures Stale(t) && t.shared == s.shared && t.version == s.version
  {
    hide VerdictOf, Mint, Proves, Better;
  }

  /** From then on, until the chain is replaced again, the miner does not notice, and nothing that it
      mines reaches the shared chain. */
  lemma {:induction false} StalenessPersists(w: World, keys: Keys, r: Trace, i: nat, j: nat)
    requires IsRun(w, keys, r) && i <= j < |r.states| && Stale(r.states[i])
    requires forall k :: i <= k < j && r.events[k].OthersAct? ==>
               AfterOthers(w, r.states[k], r.events[k].action) == r.states[k]
    ensures Stale(r.states[j]) && r.states[j].shared == r.states[i].shared
    ensures r.states[j].version == r.states[i].version
    decreases j
  {
    hide Stale, Next, AfterOthers;
    if i < j {
      StalenessPersists(w, keys, r, i, j - 1);
      StaleStep(w, keys, r.states[j - 1], r.events[j - 1], r.states[j]);
    }
  }

  /** The window can be hit: two offers of longer and longer chains, the second between the miner's two
      reads, take the miner from a safe state to a stale one. */
  lemma StaleIsReachable(w: World, keys: Keys, difficulty: uint64, c0: Chain, c1: Chain, c2: Chain) returns (r: Trace)
    requires Usable(w, difficulty, c0) && Usable(w, difficulty, c1) && Usable(w, difficulty, c2)
    requires |c0.blocks| < |c1.blocks| < |c2.blocks|
    ensures IsRun(w, keys, r) && |r.events| == 5
    ensures r.states[0] == State(c0, 0, c0, true, 0, Success, Polling) && Safe(w, difficulty, r.states[0])
    ensures forall e :: e in r.events ==> e == MinerActs || e.action.Offer?
    ensures Stale(r.states[5]) && r.states[5].local == c1 && r.states[5].shared == c2
  {
    hide ValidChain, VerdictOf, Mint, Proves;
    var s0 := State(c0, 0, c0, true, 0, Success, Polling);
    var s1 := Replaced(s0, c1);
    var s2 := s1.(phase := Reloading);
    var s3 := s2.(local := c1, aliased := true, phase := Recording);
    var s4 := Replaced(s3, c2);
    var s5 := s4.(versionMined := 2, code := Success, phase := Checking);
    r := Trace(
      [s0, s1, s2, s3, s4, s5],
      [OthersAct(Offer(c1)), MinerActs, MinerActs, OthersAct(Offer(c2)), MinerActs]);
    assert Next(w, keys, s0, r.events[0], s1);
    assert Next(w, keys, s1, r.events[1], s2);
    assert Next(w, keys, s2, r.events[2], s3);
    assert Next(w, keys, s3, r.events[3], s4);
    assert Next(w, keys, s4, r.events[4], s5);
  }

  /** At difficulty 0 one signed minting transaction is enough for usable chains of every length. */
  lemma {:induction false} UsableChainsExist(w: World, t: Transaction, n: nat) returns (c: Chain)
    requires IsMinting(t) && CheckSignature(w, t) == Accepted
    ensures Usable(w, 0, c) && |c.blocks| == n + 1
  {
    hide Hash, ValidChain;
    if n == 0 {
      var genesis := Block(0, [], GENESIS_BLOCK_PROOF_OF_WORK, ZERO_HASH);
      GenesisStartsEveryChain(w, 0, genesis);
      c := Chain(0, [genesis]);
    } else {
      ghost var front := UsableChainsExist(w, t, n - 1);
      var b := Block(0, [t], 0, Hash(w, front.blocks[n - 1]));
      ExtensionValidity(w, front, b);
      c := front.(blocks := front.blocks + [b]);
    }
  }

  // A platform on which both happen.

  /** Every block has the hash `hash`, and every signature is empty and accepted. */
  function Indifferent(hash: Digest): World {
    World(true, (s: seq<byte>) => hash, (t: Transaction) => Accepted,
          (t: Transaction, key: Key) => Some((0, Zeros(SIGNATURE_LENGTH))))
  }

  lemma HashIsIndifferent(hash: Digest, b: Block)
    ensures Hash(Indifferent(hash), b) == hash
  {
  }

  /** With a hash that does not begin with zero, a miner at difficulty 1 gives up on its first block, is
      asked to stop, and returns the search's failure code. */
  lemma FruitlessExitHappens(keys: Keys, hash: Digest, now: int64, later: int64) returns (r: Trace)
    requires hash[0] != 0
    ensures var w := Indifferent(hash);
            SigningWorks(w, keys) && IsRun(w, keys, r) && Safe(w, 1, r.states[0]) && |r.events| == 5
    ensures r.states[0].phase == Polling && r.states[0].code == Success
    ensures r.states[5].phase == Exited(CouldNotFindValidProofOfWork)
  {
    hide AfterCheck, VerdictOf, Hash, HashedBytes, ValidChain;
    var w := Indifferent(hash);
    var genesis := Block(0, [], GENESIS_BLOCK_PROOF_OF_WORK, ZERO_HASH);
    var c := Chain(1, [genesis]);
    GenesisStartsEveryChain(w, 1, genesis);
    CheckOfValidChain(w, keys, c, now, later);
    var next := AfterCheck(w, keys, c, now, later).next;
    forall n | 0 <= n < NONCE_LIMIT
      ensures !Proves(w, 1, next, n)
    {
      HashIsIndifferent(hash, WithProof(next, n));
    }
    r := FruitlessExitIsReachable(w, keys, c, now, later);
  }

  /** At difficulty 0 the consensus server is offered chains of two and of three blocks, the second
      between the miner's two reads, and the miner is left with the shorter one. */
  lemma StaleHappens(keys: Keys, hash: Digest) returns (r: Trace)
    ensures var w := Indifferent(hash);
            SigningWorks(w, keys) && IsRun(w, keys, r) && Safe(w, 0, r.states[0]) && |r.events| == 5
    ensures forall e :: e in r.events ==> e == MinerActs || e.action.Offer?
    ensures Stale(r.states[5]) && |r.states[5].local.blocks| == 2 && |r.states[5].shared.blocks| == 3
  {
    hide Usable, IsRun, Safe, Stale;
    var w := Indifferent(hash);
    var t := Mint(w, keys, 0).value;
    var c0 := UsableChainsExist(w, t, 0);
    var c1 := UsableChainsExist(w, t, 1);
    var c2 := UsableChainsExist(w, t, 2);
    r := StaleIsReachable(w, keys, 0, c0, c1, c2);
  }
}
