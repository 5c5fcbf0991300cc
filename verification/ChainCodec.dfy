/** The wire format of a blockchain: blocks of transactions, two lists deep (src/blockchain.c). */
module ChainCodec {
  import opened Blockchains
  import opened Bytes
  import opened Cursor
  import opened Ledger
  import opened LinkedLists
  import opened ReturnCodes

  const TRANSACTION_LENGTH := 8728
  const BLOCK_HEADER_LENGTH := 56
  const CHAIN_HEADER_LENGTH := 16

  /** The wire form of a transaction's fields before its signature, followed by `rest`. */
  function TransactionFieldsThen(t: Transaction, rest: seq<byte>): seq<byte> {
    BigEndian(8, ToUnsigned(t.createdAt)) + (t.sender + (t.recipient + (BigEndian(8, t.amount) +
    (BigEndian(8, t.signatureLength) + rest))))
  }

  /** The wire form of a transaction followed by `rest`. */
  function TransactionThen(t: Transaction, rest: seq<byte>): seq<byte> {
    TransactionFieldsThen(t, t.signature + rest)
  }

  function TransactionsThen(ts: seq<Transaction>, rest: seq<byte>): seq<byte> {
    if ts == [] then rest else TransactionThen(ts[0], TransactionsThen(ts[1..], rest))
  }

  /** What precedes a block's transactions: its other fields, and the number of transactions. */
  datatype BlockHeader = BlockHeader(createdAt: int64, previousBlockHash: Digest, proofOfWork: uint64, count: nat)

  function BlockHeaderThen(h: BlockHeader, body: seq<byte>): seq<byte> {
    BigEndian(8, ToUnsigned(h.createdAt)) + (h.previousBlockHash + (BigEndian(8, h.proofOfWork) +
    (BigEndian(8, h.count) + body)))
  }

  function HeaderOf(b: Block): BlockHeader {
    BlockHeader(b.createdAt, b.previousBlockHash, b.proofOfWork, |b.transactions|)
  }

  function BlockThen(b: Block, rest: seq<byte>): seq<byte> {
    BlockHeaderThen(HeaderOf(b), TransactionsThen(b.transactions, rest))
  }

  function BlocksThen(bs: seq<Block>, rest: seq<byte>): seq<byte> {
    if bs == [] then rest else BlockThen(bs[0], BlocksThen(bs[1..], rest))
  }

  /** The wire form of a chain. */
  function EncodeChain(c: Chain): seq<byte> {
    BigEndian(8, c.difficulty) + (BigEndian(8, |c.blocks|) + BlocksThen(c.blocks, []))
  }

  function TransactionCount(bs: seq<Block>): nat {
    if bs == [] then 0 else |bs[0].transactions| + TransactionCount(bs[1..])
  }

  /** The source bounds the length field by the key length, checks the buffer against the length
      field, and then reads the whole fixed-size signature array. */
  function TakeSignature(length: uint64, s: seq<byte>): (r: Result<(SignatureBytes, seq<byte>)>)
    ensures r.Ok? <==> length <= KEY_LENGTH && length <= |s| && SIGNATURE_LENGTH <= |s|
    ensures r == OutOfBounds <==> length <= |s| < SIGNATURE_LENGTH
    ensures r == Err(SignatureTooLong) <==> length > KEY_LENGTH
  {
    if length > KEY_LENGTH then
      Err(SignatureTooLong)
    else if length > |s| then
      Err(BufferTooSmall)
    else if SIGNATURE_LENGTH > |s| then
      OutOfBounds
    else
      Ok((s[..SIGNATURE_LENGTH], s[SIGNATURE_LENGTH..]))
  }

  function ParseTransaction(s0: seq<byte>): Result<(Transaction, seq<byte>)> {
    var (createdAt, s1) :- Take64(s0);
    var (sender, s2) :- Take(KEY_LENGTH, s1);
    var (recipient, s3) :- Take(KEY_LENGTH, s2);
    var (amount, s4) :- Take64(s3);
    var (signatureLength, s5) :- Take64(s4);
    var (signature, s6) :- TakeSignature(signatureLength, s5);
    Ok((Transaction(ToSigned(createdAt), sender, recipient, amount, signatureLength, signature), s6))
  }

  function ParseTransactions(n: nat, parsed: seq<Transaction>, s: seq<byte>): Result<(seq<Transaction>, seq<byte>)> {
    if n == 0 then
      Ok((parsed, s))
    else
      var (t, rest) :- ParseTransaction(s);
      ParseTransactions(n - 1, parsed + [t], rest)
  }

  function ParseBlockHeader(s0: seq<byte>): Result<(BlockHeader, seq<byte>)> {
    var (createdAt, s1) :- Take64(s0);
    var (previousBlockHash, s2) :- Take(DIGEST_LENGTH, s1);
    var (proofOfWork, s3) :- Take64(s2);
    var (count, s4) :- Take64(s3);
    Ok((BlockHeader(ToSigned(createdAt), previousBlockHash, proofOfWork, count), s4))
  }

  function ParseBlock(s: seq<byte>): Result<(Block, seq<byte>)> {
    var (h, body) :- ParseBlockHeader(s);
    var (transactions, rest) :- ParseTransactions(h.count, [], body);
    Ok((Block(h.createdAt, transactions, h.proofOfWork, h.previousBlockHash), rest))
  }

  function ParseBlocks(n: nat, parsed: seq<Block>, s: seq<byte>): Result<(seq<Block>, seq<byte>)> {
    if n == 0 then
      Ok((parsed, s))
    else
      var (b, rest) :- ParseBlock(s);
      ParseBlocks(n - 1, parsed + [b], rest)
  }

  /** The chain that a buffer denotes, with the bytes that follow it. */
  function DecodeChain(s0: seq<byte>): Result<(Chain, seq<byte>)> {
    var (difficulty, s1) :- Take64(s0);
    var (n, s2) :- Take64(s1);
    var (blocks, rest) :- ParseBlocks(n, [], s2);
    Ok((Chain(difficulty, blocks), rest))
  }

  method SerializeTransaction(t: Transaction) returns (buffer: seq<byte>)
    ensures buffer == TransactionThen(t, [])
  {
    hide BigEndian;
    var createdAt := HostToBigEndian64(ToUnsigned(t.createdAt));
    var amount := HostToBigEndian64(t.amount);
    var signatureLength := HostToBigEndian64(t.signatureLength);
    buffer := createdAt + t.sender + t.recipient + amount + signatureLength + t.signature;
  }

  method SerializeBlockHeader(b: Block) returns (buffer: seq<byte>)
    requires |b.transactions| < TWO_TO_THE_64
    ensures forall rest ::
              buffer + TransactionsThen(b.transactions, rest) == BlockThen(b, rest)
  {
    hide BigEndian, TransactionsThen;
    var createdAt := HostToBigEndian64(ToUnsigned(b.createdAt));
    var proofOfWork := HostToBigEndian64(b.proofOfWork);
    var count := HostToBigEndian64(|b.transactions|);
    buffer := createdAt + b.previousBlockHash + proofOfWork + count;
  }

  /** All counts fit the 64-bit fields that carry them. */
  predicate Fits(c: Chain) {
    |c.blocks| < TWO_TO_THE_64 && forall b :: b in c.blocks ==> |b.transactions| < TWO_TO_THE_64
  }

  lemma TransactionThenAppends(t: Transaction, rest: seq<byte>)
    ensures TransactionThen(t, rest) == TransactionThen(t, []) + rest
    ensures |TransactionThen(t, [])| == TRANSACTION_LENGTH
  {
    hide BigEndian;
    var s := t.signature;
    assert s + rest == (s + []) + rest;
  }

  method SerializeChain(chain: Blockchain) returns (buffer: seq<byte>)
    requires chain.Valid() && Fits(chain.Value())
    ensures buffer == EncodeChain(chain.Value())
  {
    hide BigEndian, TransactionThen, BlockThen;
    ghost var bs := chain.Value().blocks;
    var n := chain.blockList.Length();
    var difficulty := HostToBigEndian64(chain.difficulty);
    var count := HostToBigEndian64(n);
    buffer := difficulty + count;
    var node := chain.blockList.head;
    ghost var i := 0;
    assert buffer + BlocksThen(bs, []) == EncodeChain(chain.Value()) && bs[0..] == bs;
    while node != null
      invariant i <= |bs| && node == NodeAt(chain.blockList.nodes, i)
      invariant buffer + BlocksThen(bs[i..], []) == EncodeChain(chain.Value())
      decreases |bs| - i
    {
      var block := node.data;
      var ts := block.transactions;
      var header := SerializeBlockHeader(block);
      ghost var following := BlocksThen(bs[i + 1..], []);
      assert BlocksThen(bs[i..], []) == BlockThen(block, following);
      assert buffer + (header + TransactionsThen(ts, following)) == buffer + header + TransactionsThen(ts, following);
      buffer := buffer + header;
      for j := 0 to |ts|
        invariant buffer + TransactionsThen(ts[j..], following) == EncodeChain(chain.Value())
      {
        var transaction := SerializeTransaction(ts[j]);
        ghost var tail := TransactionsThen(ts[j + 1..], following);
        TransactionThenAppends(ts[j], tail);
        assert buffer + (transaction + tail) == buffer + transaction + tail;
        buffer := buffer + transaction;
      }
      node, i := node.next, i + 1;
    }
    assert bs[i..] == [];
  }

  method DeserializeTransaction(buffer: seq<byte>, start: nat) returns (r: Result<Transaction>)
    requires start <= |buffer|
    ensures r.Ok? ==>
              && start + TRANSACTION_LENGTH <= |buffer|
              && ParseTransaction(buffer[start..]) == Ok((r.value, buffer[start + TRANSACTION_LENGTH..]))
    ensures r.IsFailure() ==>
              ParseTransaction(buffer[start..]) == r.PropagateFailure<(Transaction, seq<byte>)>()
  {
    hide Take64;
    var next := start;
    var createdAt :- Read64(buffer, next);
    next := next + 8;
    var sender :- ReadBytes(buffer, next, KEY_LENGTH);
    next := next + KEY_LENGTH;
    var recipient :- ReadBytes(buffer, next, KEY_LENGTH);
    next := next + KEY_LENGTH;
    var amount :- Read64(buffer, next);
    next := next + 8;
    var signatureLength :- Read64(buffer, next);
    next := next + 8;
    if signatureLength > KEY_LENGTH {
      return Err(SignatureTooLong);
    }
    if next + signatureLength > |buffer| {
      return Err(BufferTooSmall);
    }
    if next + SIGNATURE_LENGTH > |buffer| {
      return OutOfBounds;
    }
    var signature := buffer[next..next + SIGNATURE_LENGTH];
    assert buffer[next..][..SIGNATURE_LENGTH] == signature;
    assert buffer[next..][SIGNATURE_LENGTH..] == buffer[next + SIGNATURE_LENGTH..];
    r := Ok(Transaction(ToSigned(createdAt), sender, recipient, amount, signatureLength, signature));
  }

  method DeserializeBlockHeader(buffer: seq<byte>, start: nat) returns (r: Result<BlockHeader>)
    requires start <= |buffer|
    ensures r.Ok? ==>
              && start + BLOCK_HEADER_LENGTH <= |buffer|
              && ParseBlockHeader(buffer[start..]) == Ok((r.value, buffer[start + BLOCK_HEADER_LENGTH..]))
    ensures r.IsFailure() ==>
              ParseBlockHeader(buffer[start..]) ==
              r.PropagateFailure<(BlockHeader, seq<byte>)>()
  {
    hide Take64;
    var next := start;
    var createdAt :- Read64(buffer, next);
    next := next + 8;
    var previousBlockHash :- ReadBytes(buffer, next, DIGEST_LENGTH);
    next := next + DIGEST_LENGTH;
    var proofOfWork :- Read64(buffer, next);
    next := next + 8;
    var count :- Read64(buffer, next);
    r := Ok(BlockHeader(ToSigned(createdAt), previousBlockHash, proofOfWork, count));
  }

  method DeserializeBlock(buffer: seq<byte>, start: nat) returns (r: Result<(Block, nat)>)
    requires start <= |buffer|
    ensures r.Ok? ==>
              && r.value.1 <= |buffer|
              && ParseBlock(buffer[start..]) == Ok((r.value.0, buffer[r.value.1..]))
    ensures r.IsFailure() ==> ParseBlock(buffer[start..]) == r.PropagateFailure<(Block, seq<byte>)>()
  {
    hide ParseBlockHeader, ParseTransaction;
    var h :- DeserializeBlockHeader(buffer, start);
    var next: nat := start + BLOCK_HEADER_LENGTH;
    ghost var body := buffer[next..];
    var transactions: seq<Transaction> := [];
    for i := 0 to h.count
      invariant next <= |buffer|
      invariant ParseTransactions(h.count, [], body) == ParseTransactions(h.count - i, transactions, buffer[next..])
    {
      var transaction :- DeserializeTransaction(buffer, next);
      next := next + TRANSACTION_LENGTH;
      transactions := transactions + [transaction];
    }
    r := Ok((Block(h.createdAt, transactions, h.proofOfWork, h.previousBlockHash), next));
  }

  method DeserializeChain(buffer: seq<byte>) returns (r: Result<Blockchain>)
    ensures r.Ok? ==>
              && r.value.Valid() && fresh(r.value) && fresh(r.value.blockList.Repr)
              && DecodeChain(buffer).Ok?
              && r.value.Value() == DecodeChain(buffer).value.0
    ensures r.IsFailure() ==> DecodeChain(buffer) == r.PropagateFailure<(Chain, seq<byte>)>()
  {
    hide Take64, ParseBlock;
    var next: nat := 0;
    assert buffer[0..] == buffer;
    var difficulty :- Read64(buffer, next);
    next := next + 8;
    var chain := new Blockchain(difficulty);
    var count :- Read64(buffer, next);
    next := next + 8;
    ghost var body := buffer[next..];
    for i := 0 to count
      invariant next <= |buffer|
      invariant chain.Valid() && fresh(chain.blockList.Repr)
      invariant ParseBlocks(count, [], body) == ParseBlocks(count - i, chain.Value().blocks, buffer[next..])
    {
      var block :- DeserializeBlock(buffer, next);
      next := block.1;
      chain.AddBlock(block.0);
    }
    r := Ok(chain);
  }

  /** With `following` bytes after the transaction, the deserializer accepts its signature length. */
  predicate SignatureReadable(t: Transaction, following: nat) {
    t.signatureLength <= KEY_LENGTH && t.signatureLength <= SIGNATURE_LENGTH + following
  }

  predicate TransactionsReadable(ts: seq<Transaction>, following: nat) {
    ts == [] ||
    (&& SignatureReadable(ts[0], |TransactionsThen(ts[1..], [])| + following)
     && TransactionsReadable(ts[1..], following))
  }

  predicate BlocksReadable(bs: seq<Block>, following: nat) {
    bs == [] ||
    (&& TransactionsReadable(bs[0].transactions, |BlocksThen(bs[1..], [])| + following)
     && BlocksReadable(bs[1..], following))
  }

  predicate SignaturesFit(c: Chain) {
    forall b, t :: b in c.blocks && t in b.transactions ==> t.signatureLength <= SIGNATURE_LENGTH
  }

  lemma {:induction false} TransactionsThenAppends(ts: seq<Transaction>, rest: seq<byte>)
    ensures TransactionsThen(ts, rest) == TransactionsThen(ts, []) + rest
    ensures |TransactionsThen(ts, [])| == TRANSACTION_LENGTH * |ts|
  {
    hide TransactionThen;
    if ts != [] {
      var tail := TransactionsThen(ts[1..], []);
      TransactionsThenAppends(ts[1..], rest);
      TransactionThenAppends(ts[0], tail);
      TransactionThenAppends(ts[0], tail + rest);
    }
  }

  lemma BlockThenAppends(b: Block, rest: seq<byte>)
    ensures BlockThen(b, rest) == BlockThen(b, []) + rest
    ensures |BlockThen(b, [])| == BLOCK_HEADER_LENGTH + TRANSACTION_LENGTH * |b.transactions|
  {
    hide BigEndian, TransactionsThen;
    TransactionsThenAppends(b.transactions, rest);
  }

  lemma {:induction false} BlocksThenAppends(bs: seq<Block>, rest: seq<byte>)
    ensures BlocksThen(bs, rest) == BlocksThen(bs, []) + rest
    ensures |BlocksThen(bs, [])| == BLOCK_HEADER_LENGTH * |bs| + TRANSACTION_LENGTH * TransactionCount(bs)
  {
    hide BlockThen;
    if bs != [] {
      var tail := BlocksThen(bs[1..], []);
      BlocksThenAppends(bs[1..], rest);
      BlockThenAppends(bs[0], tail);
      BlockThenAppends(bs[0], tail + rest);
    }
  }

  /** The size of a serialized chain. */
  lemma EncodedChainLength(c: Chain)
    ensures |EncodeChain(c)| ==
            CHAIN_HEADER_LENGTH + BLOCK_HEADER_LENGTH * |c.blocks| + TRANSACTION_LENGTH * TransactionCount(c.blocks)
  {
    hide BigEndian, BlocksThen;
    BlocksThenAppends(c.blocks, []);
  }

  lemma ParseTransactionWritten(t: Transaction, rest: seq<byte>)
    ensures SignatureReadable(t, |rest|) ==> ParseTransaction(TransactionThen(t, rest)) == Ok((t, rest))
    ensures !SignatureReadable(t, |rest|) ==> ParseTransaction(TransactionThen(t, rest)).Err?
  {
    hide BigEndian, FromBigEndian, Take64;
    var s5 := t.signature + rest;
    var s4 := BigEndian(8, t.signatureLength) + s5;
    var s3 := BigEndian(8, t.amount) + s4;
    var s2 := t.recipient + s3;
    var s1 := t.sender + s2;
    Take64Written(ToUnsigned(t.createdAt), s1);
    TakeWritten(t.sender, s2);
    TakeWritten(t.recipient, s3);
    Take64Written(t.amount, s4);
    Take64Written(t.signatureLength, s5);
    TakeWritten(t.signature, rest);
    SignednessRoundTrip(t.createdAt, 0);
  }

  lemma ParsedTransactionIsWritten(s: seq<byte>)
    requires ParseTransaction(s).Ok?
    ensures var (t, rest) := ParseTransaction(s).value;
            s == TransactionThen(t, rest) && SignatureReadable(t, |rest|)
  {
    hide BigEndian, FromBigEndian, Take64;
    Taken64IsWritten(s);
    var (createdAt, s1) := Take64(s).value;
    TakenIsWritten(KEY_LENGTH, s1);
    var s2 := s1[KEY_LENGTH..];
    TakenIsWritten(KEY_LENGTH, s2);
    var s3 := s2[KEY_LENGTH..];
    Taken64IsWritten(s3);
    var s4 := Take64(s3).value.1;
    Taken64IsWritten(s4);
    var s5 := Take64(s4).value.1;
    TakenIsWritten(SIGNATURE_LENGTH, s5);
    SignednessRoundTrip(0, createdAt);
  }

  lemma {:induction false} ParseTransactionsWritten(ts: seq<Transaction>, parsed: seq<Transaction>, rest: seq<byte>)
    ensures var r := ParseTransactions(|ts|, parsed, TransactionsThen(ts, rest));
            if TransactionsReadable(ts, |rest|) then r == Ok((parsed + ts, rest)) else r.Err?
  {
    hide TransactionThen, ParseTransaction, SignatureReadable;
    if ts == [] {
      assert parsed + ts == parsed;
    } else {
      var tail := TransactionsThen(ts[1..], rest);
      TransactionsThenAppends(ts[1..], rest);
      ParseTransactionWritten(ts[0], tail);
      ParseTransactionsWritten(ts[1..], parsed + [ts[0]], rest);
      assert parsed + [ts[0]] + ts[1..] == parsed + ts;
    }
  }

  lemma {:induction false} ParsedTransactionsAreWritten(n: nat, parsed: seq<Transaction>, s: seq<byte>)
    requires ParseTransactions(n, parsed, s).Ok?
    ensures var (ts, rest) := ParseTransactions(n, parsed, s).value;
            && |ts| == |parsed| + n && ts[..|parsed|] == parsed
            && s == TransactionsThen(ts[|parsed|..], rest)
            && TransactionsReadable(ts[|parsed|..], |rest|)
  {
    hide TransactionThen, ParseTransaction, SignatureReadable;
    var k := |parsed|;
    if n == 0 {
      assert parsed[k..] == [];
    } else {
      var (t, s1) := ParseTransaction(s).value;
      ParsedTransactionIsWritten(s);
      ParsedTransactionsAreWritten(n - 1, parsed + [t], s1);
      var (ts, rest) := ParseTransactions(n, parsed, s).value;
      assert ts[k] == ts[..k + 1][k] == t;
      assert ts[k..][0] == t && ts[k..][1..] == ts[k + 1..];
      assert ts[..k] == ts[..k + 1][..k] == parsed;
      TransactionsThenAppends(ts[k + 1..], rest);
    }
  }

  lemma ParseBlockHeaderWritten(h: BlockHeader, body: seq<byte>)
    requires h.count < TWO_TO_THE_64
    ensures ParseBlockHeader(BlockHeaderThen(h, body)) == Ok((h, body))
  {
    hide BigEndian, FromBigEndian, Take64;
    var s3 := BigEndian(8, h.count) + body;
    var s2 := BigEndian(8, h.proofOfWork) + s3;
    var s1 := h.previousBlockHash + s2;
    Take64Written(ToUnsigned(h.createdAt), s1);
    TakeWritten(h.previousBlockHash, s2);
    Take64Written(h.proofOfWork, s3);
    Take64Written(h.count, body);
    SignednessRoundTrip(h.createdAt, 0);
  }

  lemma ParsedBlockHeaderIsWritten(s: seq<byte>)
    requires ParseBlockHeader(s).Ok?
    ensures var (h, body) := ParseBlockHeader(s).value;
            h.count < TWO_TO_THE_64 && s == BlockHeaderThen(h, body)
  {
    hide BigEndian, FromBigEndian, Take64;
    Taken64IsWritten(s);
    var (createdAt, s1) := Take64(s).value;
    TakenIsWritten(DIGEST_LENGTH, s1);
    var s2 := s1[DIGEST_LENGTH..];
    Taken64IsWritten(s2);
    var (proofOfWork, s3) := Take64(s2).value;
    Taken64IsWritten(s3);
    SignednessRoundTrip(0, createdAt);
    var (count, body) := Take64(s3).value;
    assert ParseBlockHeader(s) == Ok((BlockHeader(ToSigned(createdAt), s1[..DIGEST_LENGTH], proofOfWork, count), body));
  }

  lemma ParseBlockWritten(b: Block, rest: seq<byte>)
    requires |b.transactions| < TWO_TO_THE_64
    ensures var r := ParseBlock(BlockThen(b, rest));
            if TransactionsReadable(b.transactions, |rest|) then r == Ok((b, rest)) else r.Err?
  {
    hide BlockHeaderThen, TransactionsThen, ParseTransactions, ParseBlockHeader, TransactionsReadable;
    ParseBlockHeaderWritten(HeaderOf(b), TransactionsThen(b.transactions, rest));
    ParseTransactionsWritten(b.transactions, [], rest);
    assert [] + b.transactions == b.transactions;
  }

  lemma ParsedBlockIsWritten(s: seq<byte>)
    requires ParseBlock(s).Ok?
    ensures var (b, rest) := ParseBlock(s).value;
            && |b.transactions| < TWO_TO_THE_64
            && s == BlockThen(b, rest)
            && TransactionsReadable(b.transactions, |rest|)
  {
    hide BlockHeaderThen, TransactionsThen, ParseTransactions, ParseBlockHeader, TransactionsReadable;
    var (h, body) := ParseBlockHeader(s).value;
    ParsedBlockHeaderIsWritten(s);
    ParsedTransactionsAreWritten(h.count, [], body);
    var ts := ParseTransactions(h.count, [], body).value.0;
    assert ts[0..] == ts;
  }

  lemma {:induction false} ParseBlocksWritten(bs: seq<Block>, parsed: seq<Block>, rest: seq<byte>)
    requires forall b :: b in bs ==> |b.transactions| < TWO_TO_THE_64
    ensures var r := ParseBlocks(|bs|, parsed, BlocksThen(bs, rest));
            if BlocksReadable(bs, |rest|) then r == Ok((parsed + bs, rest)) else r.Err?
  {
    hide BlockThen, ParseBlock, TransactionsReadable;
    if bs == [] {
      assert parsed + bs == parsed;
    } else {
      var tail := BlocksThen(bs[1..], rest);
      BlocksThenAppends(bs[1..], rest);
      ParseBlockWritten(bs[0], tail);
      ParseBlocksWritten(bs[1..], parsed + [bs[0]], rest);
      assert parsed + [bs[0]] + bs[1..] == parsed + bs;
    }
  }

  lemma {:induction false} ParsedBlocksAreWritten(n: nat, parsed: seq<Block>, s: seq<byte>)
    requires ParseBlocks(n, parsed, s).Ok?
    requires forall b :: b in parsed ==> |b.transactions| < TWO_TO_THE_64
    ensures var (bs, rest) := ParseBlocks(n, parsed, s).value;
            && |bs| == |parsed| + n && bs[..|parsed|] == parsed
            && (forall b :: b in bs ==> |b.transactions| < TWO_TO_THE_64)
            && s == BlocksThen(bs[|parsed|..], rest)
            && BlocksReadable(bs[|parsed|..], |rest|)
  {
    hide BlockThen, ParseBlock, TransactionsReadable;
    var k := |parsed|;
    if n == 0 {
      assert parsed[k..] == [];
    } else {
      var (b, s1) := ParseBlock(s).value;
      ParsedBlockIsWritten(s);
      ParsedBlocksAreWritten(n - 1, parsed + [b], s1);
      var (bs, rest) := ParseBlocks(n, parsed, s).value;
      assert bs[k] == bs[..k + 1][k] == b;
      assert bs[k..][0] == b && bs[k..][1..] == bs[k + 1..];
      assert bs[..k] == bs[..k + 1][..k] == parsed;
      BlocksThenAppends(bs[k + 1..], rest);
    }
  }

  lemma DecodeEncodedChain(c: Chain, rest: seq<byte>)
    requires Fits(c)
    ensures var r := DecodeChain(EncodeChain(c) + rest);
            if BlocksReadable(c.blocks, |rest|) then r == Ok((c, rest)) else r.Err?
  {
    hide BigEndian, FromBigEndian, Take64, BlocksThen, ParseBlocks, BlocksReadable;
    var body := BlocksThen(c.blocks, rest);
    var s1 := BigEndian(8, |c.blocks|) + body;
    BlocksThenAppends(c.blocks, rest);
    assert EncodeChain(c) + rest == BigEndian(8, c.difficulty) + s1;
    Take64Written(c.difficulty, s1);
    Take64Written(|c.blocks|, body);
    ParseBlocksWritten(c.blocks, [], rest);
    assert [] + c.blocks == c.blocks;
  }

  /** A serialized chain, whatever bytes follow it, decodes to the same chain exactly when every
      signature length is readable where it stands. */
  lemma {:induction false} ChainRoundTrip(c: Chain, rest: seq<byte>, s: seq<byte>)
    requires Fits(c) && s == EncodeChain(c) + rest
    ensures DecodeChain(s) == Ok((c, rest)) <==> BlocksReadable(c.blocks, |rest|)
  {
    hide DecodeChain, EncodeChain, BlocksReadable, Fits;
    DecodeEncodedChain(c, rest);
  }

  /** Otherwise it is rejected, and never read out of bounds. */
  lemma {:induction false} UnreadableChainIsRejected(c: Chain, rest: seq<byte>, s: seq<byte>)
    requires Fits(c) && s == EncodeChain(c) + rest && !BlocksReadable(c.blocks, |rest|)
    ensures DecodeChain(s).Err?
  {
    hide DecodeChain, EncodeChain, BlocksReadable, Fits;
    DecodeEncodedChain(c, rest);
  }

  /** An accepted buffer is exactly the serialization of the chain it yields, then the bytes not consumed. */
  lemma ChainCanonical(s: seq<byte>)
    requires DecodeChain(s).Ok?
    ensures var (c, rest) := DecodeChain(s).value;
            Fits(c) && s == EncodeChain(c) + rest && BlocksReadable(c.blocks, |rest|)
  {
    hide BigEndian, FromBigEndian, Take64, BlocksThen, ParseBlocks, BlocksReadable;
    Taken64IsWritten(s);
    var s1 := Take64(s).value.1;
    Taken64IsWritten(s1);
    var (n, s2) := Take64(s1).value;
    ParsedBlocksAreWritten(n, [], s2);
    var (bs, rest) := ParseBlocks(n, [], s2).value;
    assert bs[0..] == bs;
    BlocksThenAppends(bs, rest);
  }

  /** `s` is a serialized chain, with signature lengths readable where they stand, and then `rest`. */
  predicate BeginsWith(s: seq<byte>, c: Chain, rest: seq<byte>) {
    Fits(c) && BlocksReadable(c.blocks, |rest|) && s == EncodeChain(c) + rest
  }

  /** The deserializer accepts exactly the buffers that begin with a readable serialized chain. */
  lemma AcceptedBuffers(s: seq<byte>)
    ensures DecodeChain(s).Ok? <==> exists c, rest :: BeginsWith(s, c, rest)
  {
    hide DecodeChain, EncodeChain, Fits, BlocksReadable;
    if DecodeChain(s).Ok? {
      ChainCanonical(s);
      assert BeginsWith(s, DecodeChain(s).value.0, DecodeChain(s).value.1);
    }
    if c: Chain, rest: seq<byte> :| BeginsWith(s, c, rest) {
      ChainRoundTrip(c, rest, s);
    }
  }

  lemma CutTransactionIsOutOfBounds(t: Transaction, tail: seq<byte>)
    requires t.signatureLength <= |tail| < SIGNATURE_LENGTH
    ensures ParseTransaction(TransactionFieldsThen(t, tail)) == OutOfBounds
  {
    hide BigEndian, FromBigEndian, Take64;
    var s4 := BigEndian(8, t.signatureLength) + tail;
    var s3 := BigEndian(8, t.amount) + s4;
    var s2 := t.recipient + s3;
    var s1 := t.sender + s2;
    Take64Written(ToUnsigned(t.createdAt), s1);
    TakeWritten(t.sender, s2);
    TakeWritten(t.recipient, s3);
    Take64Written(t.amount, s4);
    Take64Written(t.signatureLength, tail);
  }

  lemma OutOfBoundsTransactionIsCut(s: seq<byte>) returns (t: Transaction, tail: seq<byte>)
    requires ParseTransaction(s) == OutOfBounds
    ensures s == TransactionFieldsThen(t, tail) && t.signatureLength <= |tail| < SIGNATURE_LENGTH
  {
    hide BigEndian, FromBigEndian, Take64;
    Taken64IsWritten(s);
    var (createdAt, s1) := Take64(s).value;
    TakenIsWritten(KEY_LENGTH, s1);
    var s2 := s1[KEY_LENGTH..];
    TakenIsWritten(KEY_LENGTH, s2);
    var s3 := s2[KEY_LENGTH..];
    Taken64IsWritten(s3);
    var (amount, s4) := Take64(s3).value;
    Taken64IsWritten(s4);
    var (signatureLength, s5) := Take64(s4).value;
    SignednessRoundTrip(0, createdAt);
    tail := s5;
    t := Transaction(
      ToSigned(createdAt), s1[..KEY_LENGTH], s2[..KEY_LENGTH], amount, signatureLength, Zeros(SIGNATURE_LENGTH));
  }

  lemma {:induction false} CutTransactionsAreOutOfBounds(
      n: nat, parsed: seq<Transaction>, ts: seq<Transaction>, rest: seq<byte>)
    requires |ts| < n && TransactionsReadable(ts, |rest|) && ParseTransaction(rest) == OutOfBounds
    ensures ParseTransactions(n, parsed, TransactionsThen(ts, rest)) == OutOfBounds
  {
    hide TransactionThen, ParseTransaction, SignatureReadable;
    if ts != [] {
      TransactionsThenAppends(ts[1..], rest);
      ParseTransactionWritten(ts[0], TransactionsThen(ts[1..], rest));
      CutTransactionsAreOutOfBounds(n - 1, parsed + [ts[0]], ts[1..], rest);
    }
  }

  lemma {:induction false} OutOfBoundsTransactionsAreCut(n: nat, parsed: seq<Transaction>, s: seq<byte>)
    returns (ts: seq<Transaction>, rest: seq<byte>)
    requires ParseTransactions(n, parsed, s) == OutOfBounds
    ensures |ts| < n && TransactionsReadable(ts, |rest|) && ParseTransaction(rest) == OutOfBounds
    ensures s == TransactionsThen(ts, rest)
  {
    hide TransactionThen, ParseTransaction, SignatureReadable;
    if ParseTransaction(s) == OutOfBounds {
      ts, rest := [], s;
    } else {
      ParsedTransactionIsWritten(s);
      var (t, s1) := ParseTransaction(s).value;
      var more;
      more, rest := OutOfBoundsTransactionsAreCut(n - 1, parsed + [t], s1);
      ts := [t] + more;
      assert ts[1..] == more;
      TransactionsThenAppends(more, rest);
    }
  }

  /** A serialized block that ends in its transaction `last`, after its length field and fewer
      bytes than a signature has. */
  datatype CutBlock = CutBlock(
    header: BlockHeader, transactions: seq<Transaction>, last: Transaction, tail: seq<byte>)
  {
    function Bytes(): seq<byte> {
      BlockHeaderThen(header, TransactionsThen(transactions, TransactionFieldsThen(last, tail)))
    }

    /** The reads before the last one are in order, and the last one passes the checks. */
    predicate Reached() {
      && |transactions| < header.count < TWO_TO_THE_64
      && TransactionsReadable(transactions, |TransactionFieldsThen(last, tail)|)
      && last.signatureLength <= |tail| < SIGNATURE_LENGTH
    }
  }

  lemma CutBlockIsOutOfBounds(cut: CutBlock)
    requires cut.Reached()
    ensures ParseBlock(cut.Bytes()) == OutOfBounds
  {
    hide BlockHeaderThen, ParseBlockHeader, TransactionFieldsThen, TransactionsThen, TransactionsReadable,
      ParseTransaction, ParseTransactions;
    var rest := TransactionFieldsThen(cut.last, cut.tail);
    ParseBlockHeaderWritten(cut.header, TransactionsThen(cut.transactions, rest));
    CutTransactionIsOutOfBounds(cut.last, cut.tail);
    CutTransactionsAreOutOfBounds(cut.header.count, [], cut.transactions, rest);
  }

  lemma OutOfBoundsBlockIsCut(s: seq<byte>) returns (cut: CutBlock)
    requires ParseBlock(s) == OutOfBounds
    ensures cut.Reached() && s == cut.Bytes()
  {
    hide BlockHeaderThen, TransactionFieldsThen, TransactionsThen, TransactionsReadable, ParseTransaction,
      ParseTransactions, Take64;
    ParsedBlockHeaderIsWritten(s);
    var (h, body) := ParseBlockHeader(s).value;
    var ts, rest := OutOfBoundsTransactionsAreCut(h.count, [], body);
    var t, tail := OutOfBoundsTransactionIsCut(rest);
    cut := CutBlock(h, ts, t, tail);
  }

  lemma {:induction false} CutBlocksAreOutOfBounds(n: nat, parsed: seq<Block>, bs: seq<Block>, rest: seq<byte>)
    requires forall b :: b in bs ==> |b.transactions| < TWO_TO_THE_64
    requires |bs| < n && BlocksReadable(bs, |rest|) && ParseBlock(rest) == OutOfBounds
    ensures ParseBlocks(n, parsed, BlocksThen(bs, rest)) == OutOfBounds
  {
    hide BlockThen, ParseBlock, TransactionsReadable;
    if bs != [] {
      BlocksThenAppends(bs[1..], rest);
      ParseBlockWritten(bs[0], BlocksThen(bs[1..], rest));
      CutBlocksAreOutOfBounds(n - 1, parsed + [bs[0]], bs[1..], rest);
    }
  }

  lemma {:induction false} OutOfBoundsBlocksAreCut(n: nat, parsed: seq<Block>, s: seq<byte>)
    returns (bs: seq<Block>, rest: seq<byte>)
    requires ParseBlocks(n, parsed, s) == OutOfBounds
    ensures forall b :: b in bs ==> |b.transactions| < TWO_TO_THE_64
    ensures |bs| < n && BlocksReadable(bs, |rest|) && ParseBlock(rest) == OutOfBounds
    ensures s == BlocksThen(bs, rest)
  {
    hide BlockThen, ParseBlock, TransactionsReadable;
    if ParseBlock(s) == OutOfBounds {
      bs, rest := [], s;
    } else {
      ParsedBlockIsWritten(s);
      var (b, s1) := ParseBlock(s).value;
      var more;
      more, rest := OutOfBoundsBlocksAreCut(n - 1, parsed + [b], s1);
      bs := [b] + more;
      assert bs[1..] == more;
      BlocksThenAppends(more, rest);
    }
  }

  /** `s` is a serialized chain cut off inside the signature of a transaction: it announces
      `count` blocks, the blocks `bs` are there and readable, and the next one is `cut`. */
  predicate EndsInSignature(s: seq<byte>, difficulty: uint64, count: uint64, bs: seq<Block>, cut: CutBlock) {
    && Fits(Chain(difficulty, bs)) && |bs| < count
    && BlocksReadable(bs, |cut.Bytes()|)
    && cut.Reached()
    && s == BigEndian(8, difficulty) + (BigEndian(8, count) + BlocksThen(bs, cut.Bytes()))
  }

  /** The deserializer reads out of bounds on exactly the buffers that are cut off inside a signature, at
      or after the length that the transaction announces for it. */
  lemma OutOfBoundsBuffers(s: seq<byte>)
    ensures DecodeChain(s) == OutOfBounds <==>
            exists difficulty, count, bs, cut :: EndsInSignature(s, difficulty, count, bs, cut)
  {
    hide BigEndian, FromBigEndian, Take64, BlocksThen, ParseBlock, ParseBlocks, BlocksReadable, CutBlock.Bytes,
      CutBlock.Reached;
    if DecodeChain(s) == OutOfBounds {
      Taken64IsWritten(s);
      var (difficulty, s1) := Take64(s).value;
      Taken64IsWritten(s1);
      var (count, s2) := Take64(s1).value;
      var bs, rest := OutOfBoundsBlocksAreCut(count, [], s2);
      var cut := OutOfBoundsBlockIsCut(rest);
      assert EndsInSignature(s, difficulty, count, bs, cut);
    }
    if difficulty: uint64, count: uint64, bs: seq<Block>, cut: CutBlock :|
        EndsInSignature(s, difficulty, count, bs, cut) {
      var body := BlocksThen(bs, cut.Bytes());
      Take64Written(difficulty, BigEndian(8, count) + body);
      Take64Written(count, body);
      CutBlockIsOutOfBounds(cut);
      CutBlocksAreOutOfBounds(count, [], bs, cut.Bytes());
    }
  }

  /** Such a buffer: the fields of one transaction that announces an empty signature, and nothing more. */
  lemma OutOfBoundsIsReachable(h: BlockHeader, t: Transaction, s: seq<byte>)
    requires h.count == 1 && t.signatureLength == 0
    requires s == BigEndian(8, 0) + (BigEndian(8, 1) + CutBlock(h, [], t, []).Bytes())
    ensures DecodeChain(s) == OutOfBounds
  {
    hide BigEndian, TransactionFieldsThen, DecodeChain;
    OutOfBoundsBuffers(s);
    assert EndsInSignature(s, 0, 1, [], CutBlock(h, [], t, []));
  }

  lemma {:induction false} MoreBytesKeepTransactionsReadable(ts: seq<Transaction>, following: nat, more: nat)
    requires TransactionsReadable(ts, following)
    ensures TransactionsReadable(ts, following + more)
  {
    hide TransactionsThen;
    if ts != [] {
      MoreBytesKeepTransactionsReadable(ts[1..], following, more);
    }
  }

  lemma {:induction false} MoreBytesKeepBlocksReadable(bs: seq<Block>, following: nat, more: nat)
    requires BlocksReadable(bs, following)
    ensures BlocksReadable(bs, following + more)
  {
    hide BlocksThen, TransactionsReadable;
    if bs != [] {
      MoreBytesKeepTransactionsReadable(bs[0].transactions, |BlocksThen(bs[1..], [])| + following, more);
      MoreBytesKeepBlocksReadable(bs[1..], following, more);
    }
  }

  /** No proper prefix of a serialized chain is accepted. */
  lemma ChainTruncated(c: Chain, k: nat)
    requires Fits(c) && BlocksReadable(c.blocks, 0) && k < |EncodeChain(c)|
    ensures !DecodeChain(EncodeChain(c)[..k]).Ok?
  {
    hide DecodeChain, EncodeChain, Fits, BlocksReadable;
    var whole := EncodeChain(c);
    var prefix, more := whole[..k], whole[k..];
    if DecodeChain(prefix).Ok? {
      ChainCanonical(prefix);
      var (c', rest) := DecodeChain(prefix).value;
      MoreBytesKeepBlocksReadable(c'.blocks, |rest|, |more|);
      ChainRoundTrip(c', rest + more, whole);
      ChainRoundTrip(c, [], whole);
    }
  }

  /** The bytes a successful call consumes and the chain it yields determine each other. */
  lemma ConsumedBytesDetermineChain(s: seq<byte>, s': seq<byte>)
    requires DecodeChain(s).Ok? && DecodeChain(s').Ok?
    ensures var (c, rest) := DecodeChain(s).value;
            var (c', rest') := DecodeChain(s').value;
            |rest| <= |s| && |rest'| <= |s'| &&
            (c == c' <==> s[..|s| - |rest|] == s'[..|s'| - |rest'|])
  {
    hide DecodeChain, EncodeChain, Fits, BlocksReadable;
    var (c, rest) := DecodeChain(s).value;
    var (c', rest') := DecodeChain(s').value;
    ChainCanonical(s);
    ChainCanonical(s');
    assert s[..|s| - |rest|] == EncodeChain(c) && s'[..|s'| - |rest'|] == EncodeChain(c');
    if EncodeChain(c) == EncodeChain(c') {
      MoreBytesKeepBlocksReadable(c.blocks, |rest|, |rest'|);
      MoreBytesKeepBlocksReadable(c'.blocks, |rest'|, |rest|);
      ChainRoundTrip(c, rest + rest', EncodeChain(c) + (rest + rest'));
      ChainRoundTrip(c', rest + rest', EncodeChain(c) + (rest + rest'));
    }
  }

  lemma {:induction false} ShortTransactionSignaturesAreReadable(ts: seq<Transaction>, following: nat)
    requires forall t :: t in ts ==> t.signatureLength <= SIGNATURE_LENGTH
    ensures TransactionsReadable(ts, following)
  {
    hide TransactionsThen;
    if ts != [] {
      assert ts[0] in ts;
      ShortTransactionSignaturesAreReadable(ts[1..], following);
    }
  }

  lemma {:induction false} ShortSignaturesAreReadable(bs: seq<Block>, following: nat)
    requires forall b, t :: b in bs && t in b.transactions ==> t.signatureLength <= SIGNATURE_LENGTH
    ensures BlocksReadable(bs, following)
  {
    hide TransactionsThen, BlocksThen;
    if bs != [] {
      assert bs[0] in bs;
      ShortTransactionSignaturesAreReadable(bs[0].transactions, |BlocksThen(bs[1..], [])| + following);
      ShortSignaturesAreReadable(bs[1..], following);
    }
  }

  // Where the fields lie.

  lemma TransactionLayout(t: Transaction, rest: seq<byte>)
    ensures var s := TransactionThen(t, rest);
            && |s| == 8728 + |rest|
            && s[..8] == BigEndian(8, ToUnsigned(t.createdAt))
            && s[8..4104] == t.sender
            && s[4104..8200] == t.recipient
            && s[8200..8208] == BigEndian(8, t.amount)
            && s[8208..8216] == BigEndian(8, t.signatureLength)
            && s[8216..8728] == t.signature
            && s[8728..] == rest
  {
    hide BigEndian;
    var s5 := t.signature + rest;
    var s4 := BigEndian(8, t.signatureLength) + s5;
    var s3 := BigEndian(8, t.amount) + s4;
    var s2 := t.recipient + s3;
    var s1 := t.sender + s2;
    var s := BigEndian(8, ToUnsigned(t.createdAt)) + s1;
    assert s[8..] == s1 && s[4104..] == s2 && s[8200..] == s3 && s[8208..] == s4 && s[8216..] == s5;
    assert s[8..4104] == s1[..4096] && s[4104..8200] == s2[..4096] && s[8200..8208] == s3[..8];
    assert s[8208..8216] == s4[..8] && s[8216..8728] == s5[..512] && s[8728..] == s5[512..];
  }

  lemma BlockLayout(b: Block, rest: seq<byte>)
    ensures var s := BlockThen(b, rest);
            && |s| == 56 + 8728 * |b.transactions| + |rest|
            && s[..8] == BigEndian(8, ToUnsigned(b.createdAt))
            && s[8..40] == b.previousBlockHash
            && s[40..48] == BigEndian(8, b.proofOfWork)
            && s[48..56] == BigEndian(8, |b.transactions|)
            && s[56..] == TransactionsThen(b.transactions, rest)
  {
    hide BigEndian, TransactionsThen;
    TransactionsThenAppends(b.transactions, rest);
    var body := TransactionsThen(b.transactions, rest);
    var s3 := BigEndian(8, |b.transactions|) + body;
    var s2 := BigEndian(8, b.proofOfWork) + s3;
    var s1 := b.previousBlockHash + s2;
    var s := BigEndian(8, ToUnsigned(b.createdAt)) + s1;
    assert s[8..] == s1 && s[40..] == s2 && s[48..] == s3;
    assert s[8..40] == s1[..32] && s[40..48] == s2[..8] && s[48..56] == s3[..8] && s[56..] == s3[8..];
  }

  lemma {:induction false} TransactionsAt(ts: seq<Transaction>, rest: seq<byte>, j: nat)
    requires j <= |ts|
    ensures 8728 * j <= |TransactionsThen(ts, rest)|
    ensures TransactionsThen(ts, rest)[8728 * j..] == TransactionsThen(ts[j..], rest)
  {
    hide TransactionThen;
    TransactionsThenAppends(ts, rest);
    if j == 0 {
      assert ts[0..] == ts;
    } else {
      TransactionsAt(ts[1..], rest, j - 1);
      assert ts[1..][j - 1..] == ts[j..];
      TransactionLayout(ts[0], TransactionsThen(ts[1..], rest));
      assert TransactionsThen(ts, rest)[8728 * j..] == TransactionsThen(ts, rest)[8728..][8728 * (j - 1)..];
    }
  }

  /** Where block `i` begins among the serialized blocks. */
  function BlockOffset(bs: seq<Block>, i: nat): nat
    requires i <= |bs|
  {
    56 * i + 8728 * TransactionCount(bs[..i])
  }

  lemma {:induction false} BlocksSplit(bs: seq<Block>, i: nat)
    requires i <= |bs|
    ensures BlocksThen(bs, []) == BlocksThen(bs[..i], BlocksThen(bs[i..], []))
  {
    hide BlockThen;
    if i == 0 {
      assert bs[0..] == bs;
    } else {
      BlocksSplit(bs[1..], i - 1);
      assert bs[1..][i - 1..] == bs[i..] && bs[..i][1..] == bs[1..][..i - 1] && bs[..i][0] == bs[0];
    }
  }

  lemma BlocksAt(bs: seq<Block>, i: nat)
    requires i <= |bs|
    ensures BlockOffset(bs, i) <= |BlocksThen(bs, [])|
    ensures BlocksThen(bs, [])[BlockOffset(bs, i)..] == BlocksThen(bs[i..], [])
  {
    hide BlocksThen, TransactionCount;
    BlocksSplit(bs, i);
    BlocksThenAppends(bs[..i], BlocksThen(bs[i..], []));
  }

  /** A serialized chain: the difficulty, the number of blocks, and block `i` where the blocks before it end. */
  lemma ChainLayout(c: Chain, i: nat)
    requires i < |c.blocks|
    ensures var s := EncodeChain(c);
            && 16 + BlockOffset(c.blocks, i) <= |s|
            && s[..8] == BigEndian(8, c.difficulty)
            && s[8..16] == BigEndian(8, |c.blocks|)
            && s[16 + BlockOffset(c.blocks, i)..] == BlockThen(c.blocks[i], BlocksThen(c.blocks[i + 1..], []))
  {
    hide BigEndian, BlockThen;
    var s, n := EncodeChain(c), BlockOffset(c.blocks, i);
    BlocksAt(c.blocks, i);
    assert s[8..16] == s[8..][..8] == BigEndian(8, |c.blocks|);
    assert s[16..] == BlocksThen(c.blocks, []);
    assert s[16 + n..] == s[16..][n..];
    assert c.blocks[i..][0] == c.blocks[i] && c.blocks[i..][1..] == c.blocks[i + 1..];
  }

  /** Transaction `j` of block `i` lies 56 bytes and `j` transactions after the block's beginning. */
  lemma TransactionInChain(c: Chain, i: nat, j: nat)
    requires i < |c.blocks| && j < |c.blocks[i].transactions|
    ensures var s, at := EncodeChain(c), 72 + BlockOffset(c.blocks, i) + 8728 * j;
            at + 8728 <= |s| && s[at..at + 8728] == TransactionThen(c.blocks[i].transactions[j], [])
  {
    hide BigEndian, BlocksThen, TransactionThen, BlockOffset, BlockThen, EncodeChain;
    ChainLayout(c, i);
    var s, n, b := EncodeChain(c), BlockOffset(c.blocks, i), c.blocks[i];
    var after := BlocksThen(c.blocks[i + 1..], []);
    BlockLayout(b, after);
    var body := TransactionsThen(b.transactions, after);
    assert s[72 + n..] == s[16 + n..][56..] == body;
    TransactionsAt(b.transactions, after, j);
    assert s[72 + n + 8728 * j..] == body[8728 * j..];
    var t, rest := b.transactions[j], TransactionsThen(b.transactions[j + 1..], after);
    assert b.transactions[j..][0] == t && b.transactions[j..][1..] == b.transactions[j + 1..];
    TransactionThenAppends(t, rest);
    assert body[8728 * j..] == TransactionThen(t, []) + rest;
    assert s[72 + n + 8728 * j..72 + n + 8728 * j + 8728] == body[8728 * j..][..8728];
  }
}
