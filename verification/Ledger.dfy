/** Transactions, blocks and chains, and the hash of a block (include/transaction.h, src/block.c). */
module Ledger {
  import opened Bytes
  import opened ReturnCodes

  const DIGEST_LENGTH := 32
  const KEY_LENGTH := 4096
  const SIGNATURE_LENGTH := 512
  const RAW_TRANSACTION_LENGTH := 8 + KEY_LENGTH + KEY_LENGTH + 8 + 8 + SIGNATURE_LENGTH

  const GENESIS_BLOCK_PROOF_OF_WORK: uint64 := 2017
  const AMOUNT_GENERATED_DURING_MINTING: uint64 := 1

  function Zeros(n: nat): (s: seq<byte>)
    ensures |s| == n && forall i :: 0 <= i < n ==> s[i] == 0
  {
    seq(n, (i: nat) => 0)
  }

  type Digest = s: seq<byte> | |s| == DIGEST_LENGTH witness Zeros(DIGEST_LENGTH)
  type Key = s: seq<byte> | |s| == KEY_LENGTH witness Zeros(KEY_LENGTH)
  type SignatureBytes = s: seq<byte> | |s| == SIGNATURE_LENGTH witness Zeros(SIGNATURE_LENGTH)

  datatype Transaction = Transaction(
    createdAt: int64, sender: Key, recipient: Key, amount: uint64,
    signatureLength: uint64, signature: SignatureBytes)

  datatype Block = Block(
    createdAt: int64, transactions: seq<Transaction>, proofOfWork: uint64, previousBlockHash: Digest)

  /** The abstract value of a blockchain: its difficulty and its blocks in order. */
  datatype Chain = Chain(difficulty: uint64, blocks: seq<Block>)

  /** `ReadsPastArray` is no outcome of the program: to accept more bytes than the signature array holds,
      the library must have read past it, after which C defines no behaviour. */
  datatype SignatureVerdict = CallFailed | Rejected | Accepted | ReadsPastArray

  /** What the program takes from its platform: the host's byte order, SHA-256, and the outcomes of
      checking a signature and of signing an unsigned transaction with a private key. Nothing is
      assumed of these functions; in particular `sha256` is not assumed to be injective. */
  datatype World = World(
    littleEndian: bool,
    sha256: seq<byte> -> Digest,
    checkSignature: Transaction -> SignatureVerdict,
    sign: (Transaction, Key) -> Option<(uint64, SignatureBytes)>)

  /** What checking the transaction's signature comes to. */
  function CheckSignature(w: World, t: Transaction): (verdict: SignatureVerdict)
    ensures verdict == Accepted ==> t.signatureLength <= SIGNATURE_LENGTH
  {
    if w.checkSignature(t) == Accepted && t.signatureLength > SIGNATURE_LENGTH then
      ReadsPastArray
    else
      w.checkSignature(t)
  }

  function Reverse(s: seq<byte>): (r: seq<byte>)
    ensures |r| == |s| && forall i :: 0 <= i < |s| ==> r[i] == s[|s| - 1 - i]
  {
    seq(|s|, i requires 0 <= i < |s| => s[|s| - 1 - i])
  }

  /** A 64-bit integer as it lies in the host's memory. */
  function HostBytes(w: World, v: uint64): (s: seq<byte>)
    ensures |s| == 8
  {
    if w.littleEndian then Reverse(BigEndian(8, v)) else BigEndian(8, v)
  }

  /** The memory of a transaction struct, which has no padding. */
  function RawTransaction(w: World, t: Transaction): (s: seq<byte>)
    ensures |s| == RAW_TRANSACTION_LENGTH
  {
    HostBytes(w, ToUnsigned(t.createdAt)) + t.sender + t.recipient + HostBytes(w, t.amount) +
    HostBytes(w, t.signatureLength) + t.signature
  }

  function RawTransactions(w: World, ts: seq<Transaction>): (s: seq<byte>)
    ensures s == [] <==> ts == []
  {
    if ts == [] then [] else RawTransactions(w, ts[..|ts| - 1]) + RawTransaction(w, ts[|ts| - 1])
  }

  /** The fixed-width part of what `block_hash` digests. */
  function HashedHeader(w: World, b: Block): (s: seq<byte>)
    ensures |s| == 16 + DIGEST_LENGTH
  {
    HostBytes(w, ToUnsigned(b.createdAt)) + HostBytes(w, b.proofOfWork) + b.previousBlockHash
  }

  /** The byte string that `block_hash` digests. */
  function HashedBytes(w: World, b: Block): seq<byte> {
    HashedHeader(w, b) + RawTransactions(w, b.transactions)
  }

  function Hash(w: World, b: Block): Digest {
    w.sha256(HashedBytes(w, b))
  }

  method BlockHash(w: World, block: Block) returns (hash: Digest)
    ensures hash == Hash(w, block) == w.sha256(HashedBytes(w, block))
  {
    hide HostBytes, RawTransaction;
    var digested := HostBytes(w, ToUnsigned(block.createdAt));
    digested := digested + HostBytes(w, block.proofOfWork);
    digested := digested + block.previousBlockHash;
    for i := 0 to |block.transactions|
      invariant digested == HashedHeader(w, block) + RawTransactions(w, block.transactions[..i])
    {
      assert block.transactions[..i + 1][..i] == block.transactions[..i];
      digested := digested + RawTransaction(w, block.transactions[i]);
    }
    assert block.transactions[..|block.transactions|] == block.transactions;
    hash := w.sha256(digested);
  }

  /** Byte `i` of an integer in memory: the low-order byte comes first on a little-endian host. */
  lemma HostBytesDigit(w: World, v: uint64, i: nat)
    requires i < 8
    ensures HostBytes(w, v)[i] == v / Pow256(if w.littleEndian then i else 7 - i) % 256
  {
    hide BigEndian;
    if w.littleEndian {
      BigEndianDigit(v, 7 - i);
    } else {
      BigEndianDigit(v, i);
    }
  }

  /** Where the fields of a transaction lie in its memory. */
  lemma RawTransactionLayout(w: World, t: Transaction)
    ensures var s := RawTransaction(w, t);
            && s[..8] == HostBytes(w, ToUnsigned(t.createdAt))
            && s[8..4104] == t.sender
            && s[4104..8200] == t.recipient
            && s[8200..8208] == HostBytes(w, t.amount)
            && s[8208..8216] == HostBytes(w, t.signatureLength)
            && s[8216..8728] == t.signature
            && |s| == 8728
  {
    hide HostBytes;
    var s1 := HostBytes(w, ToUnsigned(t.createdAt));
    var s2 := s1 + t.sender;
    var s3 := s2 + t.recipient;
    var s4 := s3 + HostBytes(w, t.amount);
    var s5 := s4 + HostBytes(w, t.signatureLength);
    var s := s5 + t.signature;
    assert s[..8216] == s5 && s5[..8208] == s4 && s4[..8200] == s3 && s3[..4104] == s2;
  }

  lemma {:induction false} RawTransactionsLayout(w: World, ts: seq<Transaction>, i: nat)
    requires i < |ts|
    ensures |RawTransactions(w, ts)| == RAW_TRANSACTION_LENGTH * |ts|
    ensures RawTransactions(w, ts)[RAW_TRANSACTION_LENGTH * i..RAW_TRANSACTION_LENGTH * (i + 1)] ==
            RawTransaction(w, ts[i])
  {
    hide RawTransaction;
    var n := |ts| - 1;
    if n > 0 {
      RawTransactionsLayout(w, ts[..n], if i < n then i else 0);
    }
    assert |RawTransactions(w, ts[..n])| == RAW_TRANSACTION_LENGTH * n;
  }

  /** Where the fields and the transactions of a block lie in what its hash digests. */
  lemma HashedBytesLayout(w: World, b: Block, i: nat)
    ensures var s := HashedBytes(w, b);
            && |s| >= 48
            && s[..8] == HostBytes(w, ToUnsigned(b.createdAt))
            && s[8..16] == HostBytes(w, b.proofOfWork)
            && s[16..48] == b.previousBlockHash
    ensures i < |b.transactions| ==>
              var s := HashedBytes(w, b);
              && |s| == 48 + 8728 * |b.transactions|
              && s[48 + 8728 * i..48 + 8728 * (i + 1)] == RawTransaction(w, b.transactions[i])
    ensures b.transactions == [] ==> |HashedBytes(w, b)| == 48
  {
    hide HostBytes, RawTransaction;
    var h := HashedHeader(w, b);
    assert HashedBytes(w, b)[..48] == h;
    if i < |b.transactions| {
      RawTransactionsLayout(w, b.transactions, i);
      assert HashedBytes(w, b)[48..] == RawTransactions(w, b.transactions);
    }
  }

  /** Equal concatenations split equally where the first parts have equal lengths. */
  lemma SplitConcatenation<T>(a: seq<T>, b: seq<T>, c: seq<T>, d: seq<T>)
    requires a + b == c + d
    requires |a| == |c| || |b| == |d|
    ensures a == c && b == d
  {
    assert |a| == |c|;
    assert a == (a + b)[..|a|] && c == (c + d)[..|a|];
    assert b == (a + b)[|a|..] && d == (c + d)[|a|..];
  }

  lemma HostBytesInjective(w: World, u: uint64, v: uint64)
    requires HostBytes(w, u) == HostBytes(w, v)
    ensures u == v
  {
    var x, y := BigEndian(8, u), BigEndian(8, v);
    if w.littleEndian {
      forall i | 0 <= i < 8
        ensures x[i] == y[i]
      {
        assert Reverse(x)[7 - i] == Reverse(y)[7 - i];
      }
    }
    assert x == y;
    MachineIntegerCodec(u, []);
    MachineIntegerCodec(v, []);
  }

  lemma RawTransactionInjective(w: World, t: Transaction, u: Transaction)
    requires RawTransaction(w, t) == RawTransaction(w, u)
    ensures t == u
  {
    var t1 := HostBytes(w, ToUnsigned(t.createdAt));
    var t2 := t1 + t.sender;
    var t3 := t2 + t.recipient;
    var t4 := t3 + HostBytes(w, t.amount);
    var t5 := t4 + HostBytes(w, t.signatureLength);
    var u1 := HostBytes(w, ToUnsigned(u.createdAt));
    var u2 := u1 + u.sender;
    var u3 := u2 + u.recipient;
    var u4 := u3 + HostBytes(w, u.amount);
    var u5 := u4 + HostBytes(w, u.signatureLength);
    SplitConcatenation(t5, t.signature, u5, u.signature);
    SplitConcatenation(t4, HostBytes(w, t.signatureLength), u4, HostBytes(w, u.signatureLength));
    SplitConcatenation(t3, HostBytes(w, t.amount), u3, HostBytes(w, u.amount));
    SplitConcatenation(t2, t.recipient, u2, u.recipient);
    SplitConcatenation(t1, t.sender, u1, u.sender);
    HostBytesInjective(w, ToUnsigned(t.createdAt), ToUnsigned(u.createdAt));
    HostBytesInjective(w, t.amount, u.amount);
    HostBytesInjective(w, t.signatureLength, u.signatureLength);
    SignednessRoundTrip(t.createdAt, 0);
    SignednessRoundTrip(u.createdAt, 0);
  }

  lemma {:induction false} RawTransactionsInjective(w: World, ts: seq<Transaction>, us: seq<Transaction>)
    requires RawTransactions(w, ts) == RawTransactions(w, us)
    ensures ts == us
  {
    hide RawTransaction;
    if ts != [] {
      var t, u := ts[|ts| - 1], us[|us| - 1];
      var front, front' := ts[..|ts| - 1], us[..|us| - 1];
      SplitConcatenation(
        RawTransactions(w, front), RawTransaction(w, t), RawTransactions(w, front'), RawTransaction(w, u));
      RawTransactionInjective(w, t, u);
      RawTransactionsInjective(w, front, front');
      assert ts == front + [t] && us == front' + [u];
    }
  }

  /** The digested bytes determine the block, although the transaction count is not among them. */
  lemma HashedBytesInjective(w: World, b: Block, c: Block)
    requires HashedBytes(w, b) == HashedBytes(w, c)
    ensures b == c
  {
    SplitConcatenation(
      HashedHeader(w, b), RawTransactions(w, b.transactions), HashedHeader(w, c), RawTransactions(w, c.transactions));
    var b1, b2 := HostBytes(w, ToUnsigned(b.createdAt)), HostBytes(w, b.proofOfWork);
    var c1, c2 := HostBytes(w, ToUnsigned(c.createdAt)), HostBytes(w, c.proofOfWork);
    SplitConcatenation(b1 + b2, b.previousBlockHash, c1 + c2, c.previousBlockHash);
    SplitConcatenation(b1, b2, c1, c2);
    HostBytesInjective(w, ToUnsigned(b.createdAt), ToUnsigned(c.createdAt));
    HostBytesInjective(w, b.proofOfWork, c.proofOfWork);
    SignednessRoundTrip(b.createdAt, 0);
    SignednessRoundTrip(c.createdAt, 0);
    RawTransactionsInjective(w, b.transactions, c.transactions);
  }
}
