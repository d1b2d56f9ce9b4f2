/**
 What one broadcast leaves behind: at the sender, at each peer, and in the broadcasts after it.
 */
module Broadcasts {
  import opened Blocks
  import opened Chain
  import opened ChainDB
  import opened TextMessages
  import opened BlockchainService
  import opened Sending

  // ---------- What a broadcast touches ----------

  predicate Asked(peers: seq<UserPeer>, n: UserHost) {
    exists i | 0 <= i < |peers| :: peers[i].address == n
  }

  predicate SameButTable(x: Node, y: Node) {
    y == x.(table := y.table)
  }

  lemma OfferTouches(c: Crypto, nodes: Nodes, b: Block, peer: UserHost, link: Link, burned: nat, n: UserHost)
    requires n in nodes
    ensures var nodes' := Offer(c, nodes, b, peer, link, burned).0;
            && nodes'.Keys == nodes.Keys && SameButTable(nodes[n], nodes'[n])
            && (n != peer ==> nodes'[n] == nodes[n])
  {
  }

  // A broadcast changes nothing but chains, and of those only the sender's and the asked peers'.
  lemma {:induction false} BroadcastTouches(c: Crypto, nodes: Nodes, me: UserHost, b: Block, peers: seq<UserPeer>,
                                            links: seq<Link>, burned: nat, n: UserHost)
    requires me in nodes && |links| == |peers| && n in nodes
    ensures var nodes' := StoreAndBroadcast(c, nodes, me, b, peers, links, burned).0;
            && nodes'.Keys == nodes.Keys && SameButTable(nodes[n], nodes'[n])
            && (n != me && !Asked(peers, n) ==> nodes'[n] == nodes[n])
    decreases |peers|
  {
    if peers != [] {
      var (nodes', ok) := Offer(c, nodes, b, peers[0].address, links[0], burned);
      OfferTouches(c, nodes, b, peers[0].address, links[0], burned, n);
      if ok {
        BroadcastTouches(c, nodes', me, b, peers[1..], links[1..], burned, n);
        assert Asked(peers[1..], n) ==> Asked(peers, n) by { AskedTail(peers, n); }
      }
    }
  }

  lemma AskedTail(peers: seq<UserPeer>, n: UserHost)
    requires peers != []
    ensures Asked(peers, n) <==> peers[0].address == n || Asked(peers[1..], n)
  {
    var tl := peers[1..];
    assert forall i | 0 < i < |peers| :: peers[i] == tl[i - 1];
    assert forall i | 0 <= i < |tl| :: tl[i] == peers[i + 1];
  }

  // A sender that is not asked itself ends with its chain extended by the block, or as it was.
  lemma {:induction false} BroadcastAtSender(c: Crypto, nodes: Nodes, me: UserHost, b: Block, peers: seq<UserPeer>,
                                             links: seq<Link>, burned: nat)
    requires me in nodes && |links| == |peers| && WellFormed(nodes[me].table) && !Asked(peers, me)
    ensures var (nodes', stored) := StoreAndBroadcast(c, nodes, me, b, peers, links, burned);
            && me in nodes' && WellFormed(nodes'[me].table)
            && ChainAt(nodes', me) == if stored then ChainAt(nodes, me) + [b] else ChainAt(nodes, me)
    decreases |peers|
  {
    if peers == [] {
      InsertAppends(nodes[me].table, b, burned);
    } else {
      var (nodes', ok) := Offer(c, nodes, b, peers[0].address, links[0], burned);
      AskedTail(peers, me);
      OfferTouches(c, nodes, b, peers[0].address, links[0], burned, me);
      if ok {
        BroadcastAtSender(c, nodes', me, b, peers[1..], links[1..], burned);
      }
    }
  }

  // A sender that reports success has the block, also when it was asked itself.
  lemma {:induction false} StoredHasBlock(c: Crypto, nodes: Nodes, me: UserHost, b: Block, peers: seq<UserPeer>,
                                          links: seq<Link>, burned: nat)
    requires me in nodes && |links| == |peers|
    ensures var (nodes', stored) := StoreAndBroadcast(c, nodes, me, b, peers, links, burned);
            me in nodes' && (stored ==> b in ChainAt(nodes', me))
    decreases |peers|
  {
    if peers == [] {
      ContentsAppended(nodes[me].table, b);
    } else {
      var (nodes', ok) := Offer(c, nodes, b, peers[0].address, links[0], burned);
      OfferTouches(c, nodes, b, peers[0].address, links[0], burned, me);
      if ok {
        StoredHasBlock(c, nodes', me, b, peers[1..], links[1..], burned);
      }
    }
  }

  // ---------- From equal chains: who ends with what ----------

  predicate HasChain(nodes: Nodes, n: UserHost, bs: seq<Block>)
    requires n in nodes
  {
    WellFormed(nodes[n].table) && ChainAt(nodes, n) == bs
  }

  predicate OnTip(c: Crypto, bs: seq<Block>, b: Block) {
    ValidChain(c, bs) && SingleValid(c, b) && b.previousHash == TipHash(bs) && !HasHash(bs, b.hash)
  }

  predicate DistinctAddresses(peers: seq<UserPeer>) {
    forall i, j | 0 <= i < j < |peers| :: peers[i].address != peers[j].address
  }

  // The sender and every peer it asks, none of them twice and not itself, hold the one chain bs.
  predicate EqualBefore(nodes: Nodes, me: UserHost, peers: seq<UserPeer>, bs: seq<Block>) {
    && me in nodes && HasChain(nodes, me, bs) && DistinctAddresses(peers) && !Asked(peers, me)
    && forall i | 0 <= i < |peers| :: peers[i].address in nodes && HasChain(nodes, peers[i].address, bs)
  }

  // Not more than five minutes ahead of a 64-bit millisecond clock, on which the sum wraps.
  predicate Timely(timestamp: UInt64, now: UInt64) {
    timestamp <= (now + 300000) % 0x1_0000_0000_0000_0000
  }

  // The link lets the loop go on: an unreachable peer counts as agreeing.
  predicate Passes(link: Link, timestamp: UInt64) {
    link.Down? || (link.Up? && Timely(timestamp, link.now))
  }

  // The peer gets the block and its clock allows it, whether or not its answer arrives.
  predicate Takes(link: Link, timestamp: UInt64) {
    (link.Up? || link.Mute?) && Timely(timestamp, link.now)
  }

  predicate FirstPass(links: seq<Link>, timestamp: UInt64, n: nat)
    requires n <= |links|
  {
    forall i | 0 <= i < n :: Passes(links[i], timestamp)
  }

  function With(bs: seq<Block>, b: Block, took: bool): seq<Block> {
    if took then bs + [b] else bs
  }

  // A node with the chain takes the block if its clock allows it, and is left alone otherwise.
  lemma ReceiveStores(c: Crypto, node: Node, bs: seq<Block>, b: Block, now: UInt64, burned: nat)
    requires OnTip(c, bs, b) && WellFormed(node.table) && Contents(node.table) == bs
    ensures var (node', ok) := Receive(c, node, b, now, burned);
            && (ok <==> Timely(b.timestamp, now))
            && WellFormed(node'.table) && Contents(node'.table) == With(bs, b, ok)
  {
    IncrementalIsWholeChain(c, node.table, b, now, burned);
    InsertAppends(node.table, b, burned);
  }

  lemma OfferExactly(c: Crypto, nodes: Nodes, b: Block, peer: UserHost, link: Link, burned: nat, bs: seq<Block>)
    requires peer in nodes && HasChain(nodes, peer, bs) && OnTip(c, bs, b)
    ensures var (nodes', ok) := Offer(c, nodes, b, peer, link, burned);
            && (ok <==> Passes(link, b.timestamp))
            && peer in nodes' && HasChain(nodes', peer, With(bs, b, Takes(link, b.timestamp)))
  {
    if link.Up? || link.Mute? {
      ReceiveStores(c, nodes[peer], bs, b, link.now, burned);
    }
  }

  lemma EqualTail(c: Crypto, nodes: Nodes, me: UserHost, b: Block, peers: seq<UserPeer>,
                  link: Link, burned: nat, bs: seq<Block>)
    requires EqualBefore(nodes, me, peers, bs) && peers != []
    ensures EqualBefore(Offer(c, nodes, b, peers[0].address, link, burned).0, me, peers[1..], bs)
    ensures !Asked(peers[1..], peers[0].address)
  {
    AskedTail(peers, me);
    forall i | 0 <= i < |peers[1..]|
      ensures peers[1..][i].address in nodes && peers[1..][i].address != peers[0].address
      ensures HasChain(Offer(c, nodes, b, peers[0].address, link, burned).0, peers[1..][i].address, bs)
    {
      assert peers[1..][i] == peers[i + 1];
    }
  }

  lemma StoreLocally(c: Crypto, nodes: Nodes, me: UserHost, b: Block, burned: nat, bs: seq<Block>)
    requires me in nodes && HasChain(nodes, me, bs) && OnTip(c, bs, b)
    ensures var (nodes', stored) := StoreAndBroadcast(c, nodes, me, b, [], [], burned);
            stored && nodes'.Keys == nodes.Keys && HasChain(nodes', me, bs + [b])
  {
    TipHasNoChild(c, nodes[me].table, b);
    InsertAppends(nodes[me].table, b, burned);
  }

  lemma PassTail(links: seq<Link>, timestamp: UInt64, n: nat)
    requires 0 < n <= |links|
    ensures FirstPass(links, timestamp, n) <==> Passes(links[0], timestamp) && FirstPass(links[1..], timestamp, n - 1)
  {
    var tl := links[1..];
    assert forall i | 0 <= i < |tl| :: tl[i] == links[i + 1];
    assert forall i | 0 < i < |links| :: links[i] == tl[i - 1];
  }

  // Whether the sender stores the block.
  lemma {:induction false} StoredExactly(c: Crypto, nodes: Nodes, me: UserHost, b: Block, peers: seq<UserPeer>,
                                         links: seq<Link>, burned: nat, bs: seq<Block>)
    requires EqualBefore(nodes, me, peers, bs) && |links| == |peers| && OnTip(c, bs, b)
    ensures var (nodes', stored) := StoreAndBroadcast(c, nodes, me, b, peers, links, burned);
            && nodes'.Keys == nodes.Keys && HasChain(nodes', me, With(bs, b, stored))
            && (stored <==> FirstPass(links, b.timestamp, |links|))
    decreases |peers|
  {
    if peers == [] {
      StoreLocally(c, nodes, me, b, burned, bs);
    } else {
      PassTail(links, b.timestamp, |links|);
      OfferExactly(c, nodes, b, peers[0].address, links[0], burned, bs);
      OfferTouches(c, nodes, b, peers[0].address, links[0], burned, me);
      AskedTail(peers, me);
      EqualTail(c, nodes, me, b, peers, links[0], burned, bs);
      var (nodes', ok) := Offer(c, nodes, b, peers[0].address, links[0], burned);
      if ok { StoredExactly(c, nodes', me, b, peers[1..], links[1..], burned, bs); }
    }
  }

  // Whether peer k does: when the broadcast gets as far as it and it gets the block.
  lemma {:induction false} TakenExactly(c: Crypto, nodes: Nodes, me: UserHost, b: Block, peers: seq<UserPeer>,
                                        links: seq<Link>, burned: nat, bs: seq<Block>, k: nat)
    requires EqualBefore(nodes, me, peers, bs) && |links| == |peers| && OnTip(c, bs, b) && k < |peers|
    ensures var nodes' := StoreAndBroadcast(c, nodes, me, b, peers, links, burned).0;
            && peers[k].address in nodes'
            && HasChain(nodes', peers[k].address,
                        With(bs, b, FirstPass(links, b.timestamp, k) && Takes(links[k], b.timestamp)))
    decreases |peers|
  {
    var p, q := peers[0].address, peers[k].address;
    var (nodes', ok) := Offer(c, nodes, b, p, links[0], burned);
    OfferExactly(c, nodes, b, p, links[0], burned, bs);
    EqualTail(c, nodes, me, b, peers, links[0], burned, bs);
    AskedTail(peers, me);
    if k == 0 {
      if ok { BroadcastTouches(c, nodes', me, b, peers[1..], links[1..], burned, p); }
    } else {
      PassTail(links, b.timestamp, k);
      OfferTouches(c, nodes, b, p, links[0], burned, q);
      if ok {
        assert peers[1..][k - 1] == peers[k] && links[1..][k - 1] == links[k];
        TakenExactly(c, nodes', me, b, peers[1..], links[1..], burned, bs, k - 1);
      }
    }
  }

  predicate Answers(links: seq<Link>, timestamp: UInt64) {
    forall i | 0 <= i < |links| :: links[i].Up? && Timely(timestamp, links[i].now)
  }

  // Before the clocks wrap: every peer answers and no clock is more than 300000 ms behind the timestamp.
  lemma AnswersInTime(links: seq<Link>, timestamp: UInt64)
    requires forall i | 0 <= i < |links| :: links[i].Up? && links[i].now + 300000 < 0x1_0000_0000_0000_0000
    ensures Answers(links, timestamp) <==> forall i | 0 <= i < |links| :: timestamp <= links[i].now + 300000
  {
    forall i | 0 <= i < |links| ensures Timely(timestamp, links[i].now) <==> timestamp <= links[i].now + 300000 {
    }
  }

  // If every peer answers and has a good clock, everyone asked ends with the block, and so does the sender.
  lemma BroadcastReachesAll(c: Crypto, nodes: Nodes, me: UserHost, b: Block, peers: seq<UserPeer>,
                            links: seq<Link>, burned: nat, bs: seq<Block>)
    requires EqualBefore(nodes, me, peers, bs) && |links| == |peers| && OnTip(c, bs, b) && Answers(links, b.timestamp)
    ensures var (nodes', stored) := StoreAndBroadcast(c, nodes, me, b, peers, links, burned);
            stored && nodes'.Keys == nodes.Keys
            && forall n | n in nodes && (n == me || Asked(peers, n)) :: HasChain(nodes', n, bs + [b])
  {
    StoredExactly(c, nodes, me, b, peers, links, burned, bs);
    forall k | 0 <= k < |peers|
      ensures peers[k].address in StoreAndBroadcast(c, nodes, me, b, peers, links, burned).0
      ensures HasChain(StoreAndBroadcast(c, nodes, me, b, peers, links, burned).0, peers[k].address, bs + [b])
    {
      TakenExactly(c, nodes, me, b, peers, links, burned, bs, k);
    }
  }

  // ---------- When a broadcast leaves nodes apart ----------

  predicate EqualAfter(nodes: Nodes, me: UserHost, peers: seq<UserPeer>) {
    && me in nodes
    && forall k | 0 <= k < |peers| ::
         peers[k].address in nodes && ChainAt(nodes, peers[k].address) == ChainAt(nodes, me)
  }

  // The first peer that can be reached at all does not get the block: its request is lost or its clock refuses it.
  predicate StopsUntaken(links: seq<Link>, timestamp: UInt64) {
    exists f | 0 <= f < |links| ::
      && !links[f].Down? && (forall i | 0 <= i < f :: links[i].Down?)
      && (links[f].Lost? || !Timely(timestamp, links[f].now))
  }

  lemma {:induction false} FirstStop(links: seq<Link>, timestamp: UInt64, n: nat) returns (f: nat)
    requires n <= |links| && !FirstPass(links, timestamp, n)
    ensures f < n && FirstPass(links, timestamp, f) && !Passes(links[f], timestamp)
    decreases n
  {
    if FirstPass(links, timestamp, n - 1) {
      f := n - 1;
    } else {
      f := FirstStop(links, timestamp, n - 1);
    }
  }

  // When chains come out equal: everyone took the block, or nobody did.
  lemma EveryoneOrNobody(links: seq<Link>, timestamp: UInt64)
    ensures (forall k | 0 <= k < |links| ::
               FirstPass(links, timestamp, k) && Takes(links[k], timestamp) <==> FirstPass(links, timestamp, |links|))
       <==> Answers(links, timestamp) || StopsUntaken(links, timestamp)
  {
    if !FirstPass(links, timestamp, |links|) {
      var f := FirstStop(links, timestamp, |links|);
      NobodyExactly(links, timestamp, f);
    } else {
      assert forall k | 0 <= k < |links| :: Passes(links[k], timestamp);
    }
  }

  lemma NobodyExactly(links: seq<Link>, timestamp: UInt64, f: nat)
    requires f < |links| && FirstPass(links, timestamp, f) && !Passes(links[f], timestamp)
    ensures (forall k | 0 <= k < |links| :: !(FirstPass(links, timestamp, k) && Takes(links[k], timestamp)))
       <==> StopsUntaken(links, timestamp)
    ensures !Answers(links, timestamp)
  {
    if forall k | 0 <= k < |links| :: !(FirstPass(links, timestamp, k) && Takes(links[k], timestamp)) {
      forall i | 0 <= i < f ensures links[i].Down? {
        assert Passes(links[i], timestamp) && FirstPass(links, timestamp, i);
      }
    }
    if StopsUntaken(links, timestamp) {
      var g :| 0 <= g < |links| && !links[g].Down? && (forall i | 0 <= i < g :: links[i].Down?)
               && (links[g].Lost? || !Timely(timestamp, links[g].now));
      assert !Passes(links[g], timestamp);
      assert f == g;
    }
  }

  // From equal chains one broadcast leaves the sender and all it asked with equal chains exactly when
  // every peer answers, or the first reachable one does not get the block. The other cases leave them apart:
  // a peer that took the block before a later one refused, and an unreachable peer of a sender that stored.
  lemma EqualChainsExactly(c: Crypto, nodes: Nodes, me: UserHost, b: Block, peers: seq<UserPeer>,
                           links: seq<Link>, burned: nat, bs: seq<Block>)
    requires EqualBefore(nodes, me, peers, bs) && |links| == |peers| && OnTip(c, bs, b)
    ensures EqualAfter(StoreAndBroadcast(c, nodes, me, b, peers, links, burned).0, me, peers)
       <==> Answers(links, b.timestamp) || StopsUntaken(links, b.timestamp)
  {
    var (nodes', stored) := StoreAndBroadcast(c, nodes, me, b, peers, links, burned);
    StoredExactly(c, nodes, me, b, peers, links, burned, bs);
    EveryoneOrNobody(links, b.timestamp);
    forall k | 0 <= k < |peers|
      ensures peers[k].address in nodes'
      ensures ChainAt(nodes', peers[k].address) == ChainAt(nodes', me)
         <==> (FirstPass(links, b.timestamp, k) && Takes(links[k], b.timestamp) <==> stored)
    {
      TakenExactly(c, nodes, me, b, peers, links, burned, bs, k);
      assert |bs + [b]| != |bs|;
    }
  }

  // ---------- What a block left behind blocks ----------

  lemma StaleOffer(c: Crypto, nodes: Nodes, b: Block, peer: UserHost, link: Link, burned: nat, q: UserHost)
    requires q in nodes && b.previousHash != TipHash(ChainAt(nodes, q))
    ensures var (nodes', ok) := Offer(c, nodes, b, peer, link, burned);
            && q in nodes' && nodes'[q] == nodes[q]
            && (peer == q && !link.Down? ==> !ok)
  {
  }

  // A block that is not on the tip of some asked peer is never stored while that peer can be reached.
  lemma {:induction false} StaleIsNotStored(c: Crypto, nodes: Nodes, me: UserHost, b: Block, peers: seq<UserPeer>,
                                            links: seq<Link>, burned: nat, i: nat)
    requires me in nodes && |links| == |peers| && i < |peers| && !links[i].Down?
    requires peers[i].address in nodes && b.previousHash != TipHash(ChainAt(nodes, peers[i].address))
    ensures !StoreAndBroadcast(c, nodes, me, b, peers, links, burned).1
    decreases |peers|
  {
    var (nodes', ok) := Offer(c, nodes, b, peers[0].address, links[0], burned);
    StaleOffer(c, nodes, b, peers[0].address, links[0], burned, peers[i].address);
    if ok && i > 0 {
      assert peers[1..][i - 1] == peers[i] && links[1..][i - 1] == links[i];
      OfferTouches(c, nodes, b, peers[0].address, links[0], burned, me);
      StaleIsNotStored(c, nodes', me, b, peers[1..], links[1..], burned, i - 1);
    }
  }

  lemma TipMoves(c: Crypto, bs: seq<Block>, b: Block)
    requires OnTip(c, bs, b)
    ensures TipHash(bs + [b]) != TipHash(bs)
  {
    Sha256Shape(c, Canonical(b));
    assert bs != [] ==> HasHash(bs, TipHash(bs)) by {
      if bs != [] { assert bs[|bs| - 1].hash == TipHash(bs); }
    }
  }

  // A peer that took a block keeps it: every later broadcast of a block on the old tip that can reach
  // this peer aborts, whoever sends it and whatever became of the first broadcast.
  lemma OrphanBlocksSends(c: Crypto, nodes: Nodes, me: UserHost, b: Block, peers: seq<UserPeer>,
                          links: seq<Link>, burned: nat, bs: seq<Block>, k: nat,
                          you: UserHost, next: Block, peers2: seq<UserPeer>, links2: seq<Link>,
                          burned2: nat, i: nat)
    requires EqualBefore(nodes, me, peers, bs) && |links| == |peers| && OnTip(c, bs, b)
    requires k < |peers| && FirstPass(links, b.timestamp, k) && Takes(links[k], b.timestamp)
    requires you in nodes && next.previousHash == TipHash(bs) && |links2| == |peers2|
    requires i < |peers2| && peers2[i].address == peers[k].address && !links2[i].Down?
    ensures var nodes' := StoreAndBroadcast(c, nodes, me, b, peers, links, burned).0;
            you in nodes' && !StoreAndBroadcast(c, nodes', you, next, peers2, links2, burned2).1
  {
    var nodes' := StoreAndBroadcast(c, nodes, me, b, peers, links, burned).0;
    StoredExactly(c, nodes, me, b, peers, links, burned, bs);
    TakenExactly(c, nodes, me, b, peers, links, burned, bs, k);
    TipMoves(c, bs, b);
    StaleIsNotStored(c, nodes', you, next, peers2, links2, burned2, i);
  }

  // ---------- A sender in its own peer list ----------

  // A broadcast that does not succeed leaves the sender's chain alone.
  predicate Kept(c: Crypto, nodes: Nodes, me: UserHost, b: Block, peers: seq<UserPeer>, links: seq<Link>, burned: nat)
    requires me in nodes && |links| == |peers|
  {
    var (nodes', stored) := StoreAndBroadcast(c, nodes, me, b, peers, links, burned);
    me in nodes' && (stored || ChainAt(nodes', me) == ChainAt(nodes, me))
  }

  // Only the peer at position f is reached.
  function OnlyReaches(n: nat, f: nat, now: UInt64): seq<Link> {
    seq(n, i requires 0 <= i < n => if i == f then Up(now) else Down)
  }

  lemma {:induction false} NobodyReached(c: Crypto, nodes: Nodes, me: UserHost, b: Block, peers: seq<UserPeer>,
                                         links: seq<Link>, burned: nat)
    requires me in nodes && |links| == |peers| && forall i | 0 <= i < |links| :: links[i].Down?
    ensures StoreAndBroadcast(c, nodes, me, b, peers, links, burned)
         == StoreAndBroadcast(c, nodes, me, b, [], [], burned)
    decreases |peers|
  {
    if peers != [] {
      NobodyReached(c, nodes, me, b, peers[1..], links[1..], burned);
    }
  }

  // Reached alone, the sender takes its block as a server, then cannot store it as a sender.
  lemma {:induction false} SelfAskedAborts(c: Crypto, nodes: Nodes, me: UserHost, b: Block, peers: seq<UserPeer>,
                                           links: seq<Link>, now: UInt64, burned: nat, bs: seq<Block>, f: nat)
    requires me in nodes && HasChain(nodes, me, bs) && OnTip(c, bs, b) && Timely(b.timestamp, now)
    requires |links| == |peers| && f < |peers| && peers[f].address == me && links[f] == Up(now)
    requires forall i | 0 <= i < |links| && i != f :: links[i].Down?
    ensures var (nodes', stored) := StoreAndBroadcast(c, nodes, me, b, peers, links, burned);
            !stored && me in nodes' && ChainAt(nodes', me) == bs + [b]
    decreases |peers|
  {
    if f > 0 {
      assert peers[1..][f - 1] == peers[f] && links[1..][f - 1] == links[f];
      SelfAskedAborts(c, nodes, me, b, peers[1..], links[1..], now, burned, bs, f - 1);
    } else {
      ReceiveStores(c, nodes[me], bs, b, now, burned);
      var nodes1 := Offer(c, nodes, b, me, Up(now), burned).0;
      NobodyReached(c, nodes1, me, b, peers[1..], links[1..], burned);
      InsertAppends(nodes1[me].table, b, burned);
      assert (bs + [b])[|bs|] == b && HasHash(bs + [b], b.hash);
    }
  }

  // Whatever the network does, a broadcast that aborts leaves its sender's chain alone: exactly when the
  // sender is not in its own peer list.
  lemma KeptExactly(c: Crypto, nodes: Nodes, me: UserHost, b: Block, peers: seq<UserPeer>, bs: seq<Block>, now: UInt64)
    requires me in nodes && HasChain(nodes, me, bs) && OnTip(c, bs, b) && Timely(b.timestamp, now)
    ensures (forall links, burned | |links| == |peers| :: Kept(c, nodes, me, b, peers, links, burned))
       <==> !Asked(peers, me)
  {
    if !Asked(peers, me) {
      forall links: seq<Link>, burned | |links| == |peers| ensures Kept(c, nodes, me, b, peers, links, burned) {
        BroadcastAtSender(c, nodes, me, b, peers, links, burned);
      }
    } else {
      var f: nat :| f < |peers| && peers[f].address == me;
      var links := OnlyReaches(|peers|, f, now);
      SelfAskedAborts(c, nodes, me, b, peers, links, now, 0, bs, f);
      assert |bs + [b]| != |bs|;
      assert !Kept(c, nodes, me, b, peers, links, 0);
    }
  }
}
