/**
 Making, checking and storing blocks on one node (src/domain/blockchain/BlockchainService.cpp).
 */
module BlockchainService {
  import opened Hex
  import opened Blocks
  import opened Chain
  import opened ChainDB
  import opened TextMessages

  const FIVE_MINUTES := 300000

  // Millisecond clocks are unsigned 64-bit, so the sum wraps.
  function Horizon(now: UInt64): UInt64 {
    (now + FIVE_MINUTES) % 0x1_0000_0000_0000_0000
  }

  // ---------- What the three validations mean ----------

  predicate IncomingAccepts(c: Crypto, bs: seq<Block>, b: Block, now: UInt64) {
    && SingleValid(c, b)
    && b.timestamp <= Horizon(now)
    && b.previousHash == TipHash(bs)
    && !HasHash(bs, b.hash)
  }

  predicate Linked(bs: seq<Block>) {
    forall i | 1 <= i < |bs| :: bs[i].previousHash == bs[i - 1].hash
  }

  predicate AllSingleValid(c: Crypto, bs: seq<Block>) {
    forall i | 0 <= i < |bs| :: SingleValid(c, bs[i])
  }

  // A node with an empty chain does not look at the first new block's parent.
  predicate NewBlocksAccepted(c: Crypto, bs: seq<Block>, batch: seq<Block>) {
    batch != [] ==>
      && Linked(batch)
      && (bs != [] ==> batch[0].previousHash == TipHash(bs))
      && AllSingleValid(c, batch)
  }

  // ---------- Accepting one block ----------

  // Checking one block against the tip is checking the whole extended chain, and the insert that
  // follows cannot fail.
  lemma IncrementalIsWholeChain(c: Crypto, t: Table, b: Block, now: UInt64, burned: nat)
    requires WellFormed(t) && ValidChain(c, Contents(t))
    ensures IncomingAccepts(c, Contents(t), b, now) <==>
            ValidChain(c, Contents(t) + [b]) && !HasHash(Contents(t), b.hash)
            && b.timestamp <= (now + 300000) % 0x1_0000_0000_0000_0000
    ensures IncomingAccepts(c, Contents(t), b, now) ==> Insert(t, b, burned) == (Appended(t, b), true)
    ensures (forall i | 0 <= i < |Contents(t)| :: !Clash(c, Contents(t)[i], b)) ==>
            (IncomingAccepts(c, Contents(t), b, now) <==>
             ValidChain(c, Contents(t) + [b]) && b.timestamp <= (now + 300000) % 0x1_0000_0000_0000_0000)
  {
    var bs := Contents(t);
    ValidAppend(c, bs, b);
    if SingleValid(c, b) && b.previousHash == TipHash(bs) {
      TipHasNoChild(c, t, b);
      FreshOnTip(c, bs, b);
    }
  }

  // validateIncomingBlock makes its three look-ups one after the other, and the chain may grow in between.
  predicate ReadsAccept(c: Crypto, atTip: seq<Block>, atParent: seq<Block>, atHash: seq<Block>, b: Block, now: UInt64) {
    && SingleValid(c, b)
    && b.timestamp <= Horizon(now)
    && (b.previousHash != TipHash(atTip) ==>
          exists p | p in atParent :: p.hash == b.previousHash && p.hash == TipHash(atTip))
    && !HasHash(atHash, b.hash)
  }

  // As chains only grow, a block accepted that way is one that findTip found on the tip of its chain, and
  // the later look-ups can only refuse it.
  lemma SeparateReads(c: Crypto, atTip: seq<Block>, atParent: seq<Block>, atHash: seq<Block>, b: Block, now: UInt64)
    requires atTip <= atParent <= atHash
    ensures ReadsAccept(c, atTip, atParent, atHash, b, now) <==>
            IncomingAccepts(c, atTip, b, now) && !HasHash(atHash, b.hash)
  {
    if HasHash(atTip, b.hash) {
      var i :| 0 <= i < |atTip| && atTip[i].hash == b.hash;
      assert atHash[i].hash == b.hash;
    }
  }

  lemma TipHasNoChild(c: Crypto, t: Table, b: Block)
    requires WellFormed(t) && ValidChain(c, Contents(t))
    requires b.previousHash == TipHash(Contents(t))
    ensures !ChildRefused(t, b)
  {
    var bs := Contents(t);
    if bs != [] {
      ChildlessIsTip(c, bs, |bs| - 1);
    }
  }

  // ---------- Accepting a batch ----------

  lemma ValidConcat(c: Crypto, bs: seq<Block>, batch: seq<Block>)
    requires ValidChain(c, bs)
    ensures ValidChain(c, bs + batch) <==>
            (batch != [] ==> Linked(batch) && batch[0].previousHash == TipHash(bs) && AllSingleValid(c, batch))
  {
    var all, n := bs + batch, |bs|;
    if ValidChain(c, all) && batch != [] {
      forall i: nat | i < |batch|
        ensures batch[i].previousHash == ParentAt(all, n + i) && SingleValid(c, batch[i])
      {
        assert BlockOk(c, all, n + i);
      }
    }
    if batch != [] ==> Linked(batch) && batch[0].previousHash == TipHash(bs) && AllSingleValid(c, batch) {
      forall i: nat | i < |all| ensures BlockOk(c, all, i) {
        if i < n {
          assert BlockOk(c, bs, i);
        }
      }
    }
  }

  // The first new block is in place, which only a node that has a chain checks.
  predicate FirstParentCovered(bs: seq<Block>, batch: seq<Block>) {
    bs != [] || batch == [] || batch[0].previousHash == NO_HASH
  }

  // Batch validation accepts every batch that extends the chain validly; an accepted batch does so
  // exactly when the node has a chain or the batch starts at "0".
  lemma BatchIsWholeChain(c: Crypto, bs: seq<Block>, batch: seq<Block>)
    requires ValidChain(c, bs)
    ensures ValidChain(c, bs + batch) ==> NewBlocksAccepted(c, bs, batch)
    ensures NewBlocksAccepted(c, bs, batch) ==> (ValidChain(c, bs + batch) <==> FirstParentCovered(bs, batch))
  {
    ValidConcat(c, bs, batch);
  }

  // An empty node accepts a lone valid block whatever parent it names.
  lemma EmptyNodeAcceptsOrphan(c: Crypto, b: Block)
    requires SingleValid(c, b) && b.previousHash != NO_HASH
    ensures NewBlocksAccepted(c, [], [b]) && !ValidChain(c, [] + [b])
  {
    ValidAppend(c, [], b);
  }

  // The insert loop of ChatApplication::init: each result is ignored.
  function InsertAll(t: Table, batch: seq<Block>, burned: nat): Table
    decreases |batch|
  {
    if batch == [] then t else InsertAll(Insert(t, batch[0], burned).0, batch[1..], burned)
  }

  // The first block of a batch that extends the chain validly goes in.
  lemma FirstGoesIn(c: Crypto, t: Table, batch: seq<Block>, burned: nat)
    requires WellFormed(t) && ValidChain(c, Contents(t) + batch) && UniqueHashes(Contents(t) + batch) && batch != []
    ensures Insert(t, batch[0], burned) == (Appended(t, batch[0]), true)
    ensures WellFormed(Appended(t, batch[0])) && Contents(Appended(t, batch[0])) == Contents(t) + [batch[0]]
  {
    var bs, b := Contents(t), batch[0];
    var all := bs + batch;
    assert all[..|bs|] == bs && all[|bs|] == b;
    ValidPrefix(c, all, |bs|);
    assert BlockOk(c, all, |bs|);
    TipHasNoChild(c, t, b);
    forall i | 0 <= i < |bs| ensures bs[i].hash != b.hash {
      assert all[i].hash != all[|bs|].hash;
    }
    InsertAppends(t, b, burned);
  }

  // Every insert of a batch that extends the chain validly takes effect, in order.
  lemma {:induction false} InsertAllAppends(c: Crypto, t: Table, batch: seq<Block>, burned: nat)
    requires WellFormed(t) && ValidChain(c, Contents(t) + batch) && UniqueHashes(Contents(t) + batch)
    ensures WellFormed(InsertAll(t, batch, burned))
    ensures Contents(InsertAll(t, batch, burned)) == Contents(t) + batch
    ensures InsertAll(t, batch, burned).lastId == t.lastId + |batch|
    decreases |batch|
  {
    if batch == [] {
      assert Contents(t) + batch == Contents(t);
    } else {
      FirstGoesIn(c, t, batch, burned);
      assert Contents(t) + [batch[0]] + batch[1..] == Contents(t) + batch;
      InsertAllAppends(c, Appended(t, batch[0]), batch[1..], burned);
    }
  }

  // Validate-then-insert at start-up yields exactly the chain followed by the batch, or two of its blocks clash.
  lemma AcceptedBatchIsStored(c: Crypto, t: Table, batch: seq<Block>, burned: nat)
    requires WellFormed(t) && ValidChain(c, Contents(t))
    requires NewBlocksAccepted(c, Contents(t), batch) && FirstParentCovered(Contents(t), batch)
    ensures ValidChain(c, Contents(t) + batch)
    ensures ChainsClash(c, Contents(t) + batch, Contents(t) + batch)
         || Contents(InsertAll(t, batch, burned)) == Contents(t) + batch
  {
    BatchIsWholeChain(c, Contents(t), batch);
    NoRepeatedHash(c, Contents(t) + batch);
    if UniqueHashes(Contents(t) + batch) {
      InsertAllAppends(c, t, batch, burned);
    }
  }

  // ---------- Making a block ----------

  function NewBlock(c: Crypto, tipHash: string, m: TextMessage, privateKey: string): Block {
    var b := DEFAULT_BLOCK.(previousHash := tipHash, payloadHash := PayloadHash(c, m.text),
                            authorPublicKey := m.from.publicKey, timestamp := m.timestamp);
    var signed := b.(signature := c.sign(Canonical(b), privateKey));
    signed.(hash := Sha256(c, Canonical(signed)))
  }

  predicate BlockMatchesMessage(c: Crypto, b: Block, m: TextMessage) {
    && b.authorPublicKey == m.from.publicKey
    && b.timestamp == m.timestamp
    && PayloadHash(c, m.text) == b.payloadHash
    && c.verify(Canonical(b), b.signature, b.authorPublicKey)
  }

  // With matching keys a new block passes both its own validation and the comparison with its message.
  lemma NewBlockValid(c: Crypto, tipHash: string, m: TextMessage, privateKey: string)
    requires Lawful(c) && c.paired(privateKey, m.from.publicKey)
    ensures var b := NewBlock(c, tipHash, m, privateKey);
            && SingleValid(c, b) && BlockMatchesMessage(c, b, m)
            && b.previousHash == tipHash && b.timestamp == m.timestamp
  {
    var b := NewBlock(c, tipHash, m, privateKey);
    assert b.signature == c.sign(Canonical(b), privateKey);
  }

  // Where a text is cut: at its first NUL, or at its end.
  predicate CutAt(s: string, i: nat) {
    i <= |s| && (forall k | 0 <= k < i :: s[k] != '\0') && (i == |s| || s[i] == '\0')
  }

  lemma {:induction false} CutIsUpToNul(s: string, i: nat)
    requires CutAt(s, i)
    ensures UpToNul(s) == s[..i]
    decreases |s|
  {
    if i > 0 {
      CutIsUpToNul(s[1..], i - 1);
      assert [s[0]] + s[1..][..i - 1] == s[..i];
    }
  }

  lemma {:induction false} EveryTextIsCut(s: string) returns (i: nat)
    ensures CutAt(s, i)
    decreases |s|
  {
    if s == [] || s[0] == '\0' {
      i := 0;
    } else {
      i := EveryTextIsCut(s[1..]);
      i := i + 1;
    }
  }

  lemma SameHexSameBytes(x: seq<byte>, y: seq<byte>)
    ensures HexText(x) == HexText(y) <==> x == y
  {
    HexRoundTrip(x);
    HexRoundTrip(y);
  }

  // What the chain protects of a message: the block made for it matches another message exactly when
  // author key and timestamp are the same and the texts, cut at their first NUL, have one digest. So it
  // fixes author, time and text up to a digest collision, and does not fix what stands behind a NUL.
  lemma BlockProtectsMessage(c: Crypto, tipHash: string, m: TextMessage, privateKey: string, other: TextMessage,
                             i: nat, j: nat)
    requires Lawful(c) && c.paired(privateKey, m.from.publicKey) && CutAt(m.text, i) && CutAt(other.text, j)
    ensures BlockMatchesMessage(c, NewBlock(c, tipHash, m, privateKey), other) <==>
            && other.from.publicKey == m.from.publicKey && other.timestamp == m.timestamp
            && c.digest(other.text[..j]) == c.digest(m.text[..i])
  {
    CutIsUpToNul(m.text, i);
    CutIsUpToNul(other.text, j);
    SameHexSameBytes(c.digest(m.text[..i]), c.digest(other.text[..j]));
    NewBlockValid(c, tipHash, m, privateKey);
  }

  // ---------- The service ----------

  datatype BlockError =
    | Malformed
    | BadSignature
    | HashMismatch
    | FutureTimestamp
    | PreviousNotFound
    | ForkDetected
    | AlreadyExists

  class Service {
    const crypto: Crypto
    const repo: Repo
    var newBlocks: seq<Block>

    constructor (crypto: Crypto, repo: Repo)
      ensures this.crypto == crypto && this.repo == repo && newBlocks == []
    {
      this.crypto, this.repo, newBlocks := crypto, repo, [];
    }

    ghost function LocalChain(): seq<Block>
      reads this, repo
    {
      Contents(repo.Value())
    }

    method ValidateSingleBlock(b: Block) returns (error: Option<BlockError>)
      ensures error.None? <==> SingleValid(crypto, b)
      ensures error.Some? ==> error.value in {BadSignature, HashMismatch}
      ensures error == Some(BadSignature) <==> !crypto.verify(Canonical(b), b.signature, b.authorPublicKey)
    {
      if !crypto.verify(Canonical(b), b.signature, b.authorPublicKey) {
        return Some(BadSignature);
      }
      var temp := ComputeHash(crypto, b.(hash := ""));
      if temp.hash != b.hash {
        return Some(HashMismatch);
      }
      return None;
    }

    method CreateBlockFromMessage(m: TextMessage, privateKey: string) returns (block: Block)
      ensures block == NewBlock(crypto, TipHash(LocalChain()), m, privateKey)
    {
      var _, tip := repo.FindTip();
      block := DEFAULT_BLOCK.(previousHash := tip.hash);
      block := block.(payloadHash := PayloadHash(crypto, m.text));
      block := block.(authorPublicKey := m.from.publicKey, timestamp := m.timestamp);
      block := block.(signature := crypto.sign(Canonical(block), privateKey));
      block := ComputeHash(crypto, block);
    }

    method ValidateLocalChain() returns (isValid: bool)
      ensures isValid <==> ValidChain(crypto, LocalChain())
      ensures isValid && LocalChain() != [] ==> LocalChain()[0].previousHash == "0"
    {
      var blocks := repo.LoadAllBlocks();
      if blocks == [] { return true; }
      isValid := true;
      var prevHash := NO_HASH;
      for i := 0 to |blocks|
        invariant prevHash == ParentAt(blocks, i)
        invariant isValid <==> forall k: nat | k < i :: BlockOk(crypto, blocks, k)
      {
        if blocks[i].previousHash != prevHash {
          isValid := false;
        } else {
          var error := ValidateSingleBlock(blocks[i]);
          if error.Some? { isValid := false; }
        }
        assert BlockOk(crypto, blocks, i) || !isValid;
        prevHash := blocks[i].hash;
      }
      assert isValid ==> BlockOk(crypto, blocks, 0);
    }

    // The look-up of a non-tip parent only tells the two refusals apart: it never saves a block.
    method ValidateIncomingBlock(b: Block, now: UInt64) returns (error: Option<BlockError>)
      ensures error.None? <==> IncomingAccepts(crypto, LocalChain(), b, now)
      ensures error == Some(BadSignature) <==> !crypto.verify(Canonical(b), b.signature, b.authorPublicKey)
      ensures error == Some(HashMismatch) <==>
              crypto.verify(Canonical(b), b.signature, b.authorPublicKey) && b.hash != Sha256(crypto, Canonical(b))
      ensures error == Some(AlreadyExists) <==>
              SingleValid(crypto, b) && b.timestamp <= Horizon(now) &&
              b.previousHash == TipHash(LocalChain()) && HasHash(LocalChain(), b.hash)
      ensures error == Some(FutureTimestamp) <==> SingleValid(crypto, b) && b.timestamp > Horizon(now)
      ensures now + 300000 < 0x1_0000_0000_0000_0000 ==>
                (error == Some(FutureTimestamp) <==> SingleValid(crypto, b) && b.timestamp > now + 300000)
      ensures error == Some(ForkDetected) <==>
              SingleValid(crypto, b) && b.timestamp <= Horizon(now) &&
              b.previousHash != TipHash(LocalChain()) && HasHash(LocalChain(), b.previousHash)
      ensures error == Some(PreviousNotFound) <==>
              SingleValid(crypto, b) && b.timestamp <= Horizon(now) &&
              b.previousHash != TipHash(LocalChain()) && !HasHash(LocalChain(), b.previousHash)
    {
      error := ValidateSingleBlock(b);
      if error.Some? { return; }
      if b.timestamp > Horizon(now) { return Some(FutureTimestamp); }
      var _, tip := repo.FindTip();
      if b.previousHash != tip.hash {
        var found, prevBlock := repo.FindBlockByHash(b.previousHash);
        if !found { return Some(PreviousNotFound); }
        if prevBlock.hash != tip.hash { return Some(ForkDetected); }
      }
      var present := repo.HasBlock(b.hash);
      if present { return Some(AlreadyExists); }
      return None;
    }

    // `data` is None when the request is not a block. An accepted block is acknowledged whatever the insert says.
    method OnIncomingBlock(data: Option<Block>, now: UInt64, burned: nat) returns (error: Option<BlockError>)
      modifies repo
      ensures data.None? ==> error == Some(Malformed)
      ensures data.Some? ==> (error.None? <==> IncomingAccepts(crypto, old(LocalChain()), data.value, now))
      ensures repo.Value() == if error.None? then Insert(old(repo.Value()), data.value, burned).0 else old(repo.Value())
    {
      if data.None? { return Some(Malformed); }
      error := ValidateIncomingBlock(data.value, now);
      if error.Some? { return; }
      var _ := repo.InsertBlock(data.value, burned);
    }

    method AddNewBlockRange(blocks: seq<Block>)
      modifies this
      ensures newBlocks == old(newBlocks) + blocks
    {
      newBlocks := newBlocks + blocks;
    }

    method ValidateNewBlocks() returns (ok: bool)
      ensures ok <==> NewBlocksAccepted(crypto, LocalChain(), newBlocks)
    {
      if newBlocks == [] { return true; }
      for i := 1 to |newBlocks|
        invariant forall k | 1 <= k < i :: newBlocks[k].previousHash == newBlocks[k - 1].hash
      {
        if newBlocks[i].previousHash != newBlocks[i - 1].hash { return false; }
      }
      var found, tip := repo.FindTip();
      if found && newBlocks[0].previousHash != tip.hash {
        var known, prevBlock := repo.FindBlockByHash(newBlocks[0].previousHash);
        if !known { return false; }
        if prevBlock.hash != tip.hash { return false; }
      }
      ok := true;
      for i := 0 to |newBlocks|
        invariant ok && forall k | 0 <= k < i :: SingleValid(crypto, newBlocks[k])
      {
        var error := ValidateSingleBlock(newBlocks[i]);
        if error.Some? { return false; }
      }
    }

    method InsertNewBlocks(burned: nat)
      modifies repo
      ensures repo.Value() == InsertAll(old(repo.Value()), newBlocks, burned)
    {
      ghost var t0 := repo.Value();
      for i := 0 to |newBlocks|
        invariant InsertAll(repo.Value(), newBlocks[i..], burned) == InsertAll(t0, newBlocks, burned)
      {
        assert newBlocks[i..][1..] == newBlocks[i + 1..];
        var _ := repo.InsertBlock(newBlocks[i], burned);
      }
    }

    method CompareBlockWithMessage(b: Block, m: TextMessage) returns (ok: bool)
      ensures ok <==> BlockMatchesMessage(crypto, b, m)
      ensures forall i: nat | CutAt(m.text, i) ::
                ok <==> && b.authorPublicKey == m.from.publicKey && b.timestamp == m.timestamp
                        && b.payloadHash == HexText(crypto.digest(m.text[..i]))
                        && crypto.verify(Canonical(b), b.signature, b.authorPublicKey)
    {
      forall i: nat | CutAt(m.text, i) ensures UpToNul(m.text) == m.text[..i] { CutIsUpToNul(m.text, i); }
      if b.authorPublicKey != m.from.publicKey { return false; }
      if b.timestamp != m.timestamp { return false; }
      if PayloadHash(crypto, m.text) != b.payloadHash { return false; }
      return crypto.verify(Canonical(b), b.signature, b.authorPublicKey);
    }
  }
}
