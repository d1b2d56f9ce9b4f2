/**
 Chains as sequences of blocks: what `validateLocalChain` accepts, and what a hash says about
 everything before it.
 */
module Chain {
  import opened Blocks

  // validateSingleBlock: the signature verifies and the stored hash is the computed one.
  predicate SingleValid(c: Crypto, b: Block) {
    && c.verify(Canonical(b), b.signature, b.authorPublicKey)
    && b.hash == Sha256(c, Canonical(b))
  }

  // The hash a block at position i must name as its parent.
  function ParentAt(bs: seq<Block>, i: nat): string
    requires i <= |bs|
  {
    if i == 0 then NO_HASH else bs[i - 1].hash
  }

  predicate BlockOk(c: Crypto, bs: seq<Block>, i: nat)
    requires i < |bs|
  {
    bs[i].previousHash == ParentAt(bs, i) && SingleValid(c, bs[i])
  }

  predicate ValidChain(c: Crypto, bs: seq<Block>) {
    forall i: nat | i < |bs| :: BlockOk(c, bs, i)
  }

  function TipHash(bs: seq<Block>): string {
    ParentAt(bs, |bs|)
  }

  predicate HasHash(bs: seq<Block>, h: string) {
    exists i | 0 <= i < |bs| :: bs[i].hash == h
  }

  predicate HasChild(bs: seq<Block>, h: string) {
    exists i | 0 <= i < |bs| :: bs[i].previousHash == h
  }

  predicate UniqueHashes(bs: seq<Block>) {
    forall i, j | 0 <= i < j < |bs| :: bs[i].hash != bs[j].hash
  }

  // Some block of one chain and some block of the other are a hash clash.
  ghost predicate ChainsClash(c: Crypto, xs: seq<Block>, ys: seq<Block>) {
    exists i, j | 0 <= i < |xs| && 0 <= j < |ys| :: Clash(c, xs[i], ys[j])
  }

  // ---------- Appending ----------

  lemma ValidPrefix(c: Crypto, bs: seq<Block>, n: nat)
    requires ValidChain(c, bs) && n <= |bs|
    ensures ValidChain(c, bs[..n])
  {
    forall i: nat | i < n ensures BlockOk(c, bs[..n], i) {
      assert BlockOk(c, bs, i);
    }
  }

  // A chain with blocks added is valid exactly when the old part is and every added block is in place.
  lemma ValidAppend(c: Crypto, bs: seq<Block>, b: Block)
    ensures ValidChain(c, bs + [b]) <==>
            ValidChain(c, bs) && b.previousHash == TipHash(bs) && SingleValid(c, b)
  {
    var all := bs + [b];
    assert all[..|bs|] == bs;
    if ValidChain(c, all) {
      ValidPrefix(c, all, |bs|);
      assert BlockOk(c, all, |bs|);
    }
    if ValidChain(c, bs) && b.previousHash == TipHash(bs) && SingleValid(c, b) {
      forall i: nat | i < |all| ensures BlockOk(c, all, i) {
        if i < |bs| {
          assert BlockOk(c, bs, i);
        }
      }
    }
  }

  lemma UniqueAppend(bs: seq<Block>, b: Block)
    requires UniqueHashes(bs) && !HasHash(bs, b.hash)
    ensures UniqueHashes(bs + [b])
  {
  }

  // ---------- Parents ----------

  // Every parent in a valid chain is "0" or a hash, hence free of the separator.
  lemma ValidParent(c: Crypto, bs: seq<Block>, i: nat)
    requires ValidChain(c, bs) && i < |bs|
    ensures BarFree(bs[i].previousHash) && SingleValid(c, bs[i])
    ensures bs[i].hash != NO_HASH
    ensures bs[i].previousHash == NO_HASH <==> i == 0
  {
    assert BlockOk(c, bs, i);
    Sha256Shape(c, Canonical(bs[i]));
    if i > 0 {
      assert BlockOk(c, bs, i - 1);
      Sha256Shape(c, Canonical(bs[i - 1]));
    }
  }

  // In a valid chain without repeated hashes a block with no child is the tip: the check
  // "has this parent a child yet" in insertBlock is a compare-and-swap on the tip.
  lemma ChildlessIsTip(c: Crypto, bs: seq<Block>, k: nat)
    requires ValidChain(c, bs) && UniqueHashes(bs) && k < |bs|
    ensures HasChild(bs, bs[k].hash) <==> k + 1 < |bs|
  {
    if k + 1 < |bs| {
      assert BlockOk(c, bs, k + 1);
      assert bs[k + 1].previousHash == bs[k].hash;
    }
    if HasChild(bs, bs[k].hash) {
      var i :| 0 <= i < |bs| && bs[i].previousHash == bs[k].hash;
      ValidParent(c, bs, i);
      ValidParent(c, bs, k);
      assert BlockOk(c, bs, i);
      assert bs[i - 1].hash == bs[k].hash;
    }
  }

  // ---------- A hash fixes the history before it ----------

  lemma SameHashSameText(c: Crypto, x: Block, y: Block)
    requires SingleValid(c, x) && SingleValid(c, y)
    requires BarFree(x.previousHash) && BarFree(y.previousHash)
    requires x.hash == y.hash
    ensures Clash(c, x, y) || (Canonical(x) == Canonical(y) && x.previousHash == y.previousHash)
  {
    if Canonical(x) == Canonical(y) {
      CanonicalParent(x, y);
    }
  }

  // Two valid chains that share a hash anywhere hold it at one height and have the same texts,
  // hence the same hashes, all the way down from it; or two of their blocks clash.
  lemma {:induction false} HashFixesHistory(c: Crypto, xs: seq<Block>, ys: seq<Block>, i: nat, j: nat)
    requires ValidChain(c, xs) && ValidChain(c, ys)
    requires i < |xs| && j < |ys| && xs[i].hash == ys[j].hash
    ensures ChainsClash(c, xs, ys) ||
            (i == j && forall k: nat | k <= i :: xs[k].hash == ys[k].hash && Canonical(xs[k]) == Canonical(ys[k]))
    decreases i
  {
    ValidParent(c, xs, i);
    ValidParent(c, ys, j);
    SameHashSameText(c, xs[i], ys[j]);
    if !Clash(c, xs[i], ys[j]) && i > 0 && j > 0 {
      assert BlockOk(c, xs, i) && BlockOk(c, ys, j);
      HashFixesHistory(c, xs, ys, i - 1, j - 1);
    }
  }

  // No valid chain repeats a hash, or two of its own blocks clash.
  lemma NoRepeatedHash(c: Crypto, bs: seq<Block>)
    requires ValidChain(c, bs)
    ensures ChainsClash(c, bs, bs) || UniqueHashes(bs)
  {
    if !ChainsClash(c, bs, bs) {
      forall i, j | 0 <= i < j < |bs| ensures bs[i].hash != bs[j].hash {
        if bs[i].hash == bs[j].hash {
          HashFixesHistory(c, bs, bs, i, j);
        }
      }
    }
  }

  // A new block on the tip never carries a hash already in the chain, or it clashes with its holder.
  lemma FreshOnTip(c: Crypto, bs: seq<Block>, b: Block)
    requires ValidChain(c, bs) && UniqueHashes(bs)
    requires SingleValid(c, b) && b.previousHash == TipHash(bs)
    ensures !HasHash(bs, b.hash) || exists i | 0 <= i < |bs| :: Clash(c, bs[i], b)
  {
    if HasHash(bs, b.hash) {
      var i :| 0 <= i < |bs| && bs[i].hash == b.hash;
      ValidParent(c, bs, i);
      TipIsNoParent(c, bs, i);
      ValidParent(c, bs, |bs| - 1);
      Sha256Shape(c, Canonical(bs[|bs| - 1]));
      SameHashSameText(c, bs[i], b);
    }
  }

  lemma TipIsNoParent(c: Crypto, bs: seq<Block>, i: nat)
    requires ValidChain(c, bs) && UniqueHashes(bs) && i < |bs|
    ensures bs[i].previousHash != TipHash(bs)
  {
    ChildlessIsTip(c, bs, |bs| - 1);
  }
}
