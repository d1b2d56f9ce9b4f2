/**
 One send from end to end (src/infra/network/TCPClient.cpp:81-160): the text goes to the receiver, the
 block to every peer in turn, and the sender stores the block or takes the message back at both ends.

 What the network does to a send is an input: a `Link` for each request. A peer that cannot be
 reached counts as agreeing; a request whose answer is unusable counts as a refusal.
 */
module Sending {
  import opened Blocks
  import opened ChainDB
  import opened TextMessages
  import opened BlockchainService
  import opened Messages
  import P = Protocol

  datatype Node = Node(
    privateKey: string,
    publicKey: string,
    table: Table,
    messages: seq<MessageRow>,
    peers: seq<UserPeer>
  )

  type Nodes = map<UserHost, Node>

  datatype Link =
    | Down              // no connection: nothing is sent
    | Lost              // sent, never handled, no usable answer
    | Mute(now: UInt64) // handled at the peer's clock, but the answer is lost
    | Up(now: UInt64)   // handled and answered

  function ChainAt(nodes: Nodes, n: UserHost): seq<Block>
    requires n in nodes
  {
    Contents(nodes[n].table)
  }

  // onIncomingBlock at a node: validate, insert, and whether "{}" is the answer.
  function Receive(c: Crypto, node: Node, b: Block, now: UInt64, burned: nat): (Node, bool) {
    if IncomingAccepts(c, Contents(node.table), b, now)
    then (node.(table := Insert(node.table, b, burned).0), true)
    else (node, false)
  }

  // sendCallback: the nodes after the block was offered to one peer, and whether the loop goes on.
  function Offer(c: Crypto, nodes: Nodes, b: Block, peer: UserHost, link: Link, burned: nat): (Nodes, bool) {
    if link.Down? || peer !in nodes then (nodes, true)
    else if link.Lost? then (nodes, false)
    else
      var (node, ok) := Receive(c, nodes[peer], b, link.now, burned);
      (nodes[peer := node], ok && link.Up?)
  }

  // storeAndBroadcastBlock
  function StoreAndBroadcast(c: Crypto, nodes: Nodes, me: UserHost, b: Block, peers: seq<UserPeer>,
                             links: seq<Link>, burned: nat): (Nodes, bool)
    requires me in nodes && |links| == |peers|
    decreases |peers|
  {
    if peers == [] then
      var (t, ok) := Insert(nodes[me].table, b, burned);
      (nodes[me := nodes[me].(table := t)], ok)
    else
      var (nodes', ok) := Offer(c, nodes, b, peers[0].address, links[0], burned);
      if ok then StoreAndBroadcast(c, nodes', me, b, peers[1..], links[1..], burned) else (nodes', false)
  }

  // ---------- The broadcast is a run of the protocol ----------

  function Addresses(peers: seq<UserPeer>): seq<UserHost> {
    seq(|peers|, i requires 0 <= i < |peers| => peers[i].address)
  }

  // A protocol state with the same tables and no request half handled.
  ghost predicate Matches(nodes: Nodes, s: P.System) {
    && s.nodes.Keys == nodes.Keys
    && forall n | n in nodes :: s.nodes[n].table == nodes[n].table && s.nodes[n].server.Free?
  }

  ghost predicate Asking(s: P.System, me: UserHost, b: Block, todo: seq<UserHost>) {
    && me in s.nodes && s.nodes[me].client.Broadcasting?
    && s.nodes[me].client.block == b && s.nodes[me].client.todo == todo
  }

  // What the peer's server does with a block it accepts, in steps.
  function ReceiveSteps(t: Table, peer: UserHost, b: Block, now: UInt64, burned: nat): seq<P.Step> {
    [P.Validate(peer, b, now), P.LookIncoming(peer)]
    + if ChildRefused(t, b) then [] else [P.InsertIncoming(peer, burned)]
  }

  // The local insert at the end, in steps.
  function StoreSteps(t: Table, me: UserHost, b: Block, burned: nat): seq<P.Step> {
    [P.LookOwn(me)] + if ChildRefused(t, b) then [] else [P.InsertOwn(me, burned)]
  }

  // The steps of the protocol one offer amounts to.
  function OfferSteps(c: Crypto, nodes: Nodes, me: UserHost, b: Block, peer: UserHost, link: Link, burned: nat)
    : seq<P.Step>
  {
    if link.Down? || peer !in nodes then [P.Skip(me)]
    else if link.Lost? || !IncomingAccepts(c, Contents(nodes[peer].table), b, link.now) then [P.Abort(me)]
    else ReceiveSteps(nodes[peer].table, peer, b, link.now, burned) + [if link.Up? then P.Hear(me) else P.Abort(me)]
  }

  function BroadcastSteps(c: Crypto, nodes: Nodes, me: UserHost, b: Block, peers: seq<UserPeer>,
                          links: seq<Link>, burned: nat): seq<P.Step>
    requires me in nodes && |links| == |peers|
    decreases |peers|
  {
    if peers == [] then StoreSteps(nodes[me].table, me, b, burned)
    else
      var steps := OfferSteps(c, nodes, me, b, peers[0].address, links[0], burned);
      var (nodes', ok) := Offer(c, nodes, b, peers[0].address, links[0], burned);
      if ok then steps + BroadcastSteps(c, nodes', me, b, peers[1..], links[1..], burned) else steps
  }

  lemma ConcatTail(xs: seq<P.Step>, ys: seq<P.Step>)
    requires xs != []
    ensures (xs + ys)[0] == xs[0] && (xs + ys)[1..] == xs[1..] + ys
  {
  }

  lemma {:induction false} RunConcat(c: Crypto, s: P.System, xs: seq<P.Step>, ys: seq<P.Step>)
    requires P.Legal(c, s, xs) && P.Legal(c, P.Final(c, s, xs), ys)
    ensures P.Legal(c, s, xs + ys) && P.Final(c, s, xs + ys) == P.Final(c, P.Final(c, s, xs), ys)
    decreases |xs|
  {
    if xs == [] {
      assert xs + ys == ys;
    } else {
      ConcatTail(xs, ys);
      RunConcat(c, P.Apply(c, s, xs[0]), xs[1..], ys);
    }
  }

  lemma OneStep(c: Crypto, s: P.System, step: P.Step)
    requires P.Enabled(c, s, step)
    ensures P.Legal(c, s, [step]) && P.Final(c, s, [step]) == P.Apply(c, s, step)
  {
    assert [step][1..] == [];
  }

  lemma TwoSteps(c: Crypto, s: P.System, first: P.Step, second: P.Step)
    requires P.Enabled(c, s, first) && P.Enabled(c, P.Apply(c, s, first), second)
    ensures P.Legal(c, s, [first] + [second])
    ensures P.Final(c, s, [first] + [second]) == P.Apply(c, P.Apply(c, s, first), second)
  {
    assert ([first] + [second])[1..] == [second];
    OneStep(c, P.Apply(c, s, first), second);
  }

  // A peer that takes the block: its table changes as in Offer, and its acknowledgement is on record.
  lemma ReceiveIsRun(c: Crypto, nodes: Nodes, s: P.System, me: UserHost, b: Block, todo: seq<UserHost>,
                     peer: UserHost, now: UInt64, burned: nat)
    requires Matches(nodes, s) && Asking(s, me, b, todo) && peer in nodes
    requires IncomingAccepts(c, Contents(nodes[peer].table), b, now)
    ensures var steps := ReceiveSteps(nodes[peer].table, peer, b, now, burned);
            && P.Legal(c, s, steps)
            && var s1 := P.Final(c, s, steps);
               && Matches(nodes[peer := Receive(c, nodes[peer], b, now, burned).0], s1)
               && Asking(s1, me, b, todo) && (peer, b) in s1.acks && s1.commits == s.commits
  {
    var first, second := P.Validate(peer, b, now), P.LookIncoming(peer);
    LookIsReceive(c, nodes, s, me, b, todo, peer, now, burned);
    TwoSteps(c, s, first, second);
    assert [first, second] == [first] + [second];
    if ChildRefused(nodes[peer].table, b) {
      assert [first, second] + [] == [first, second];
    } else {
      var s2 := P.Final(c, s, [first, second]);
      InsertIsReceive(c, nodes, s2, me, b, todo, peer, now, burned);
      OneStep(c, s2, P.InsertIncoming(peer, burned));
      RunConcat(c, s, [first, second], [P.InsertIncoming(peer, burned)]);
    }
  }

  // While a peer is between look-up and INSERT the tables are still as before.
  ghost predicate Half(nodes: Nodes, s: P.System, peer: UserHost, b: Block) {
    && peer in nodes && s.nodes.Keys == nodes.Keys && s.nodes[peer].server == P.Inserting(b)
    && forall n | n in nodes :: s.nodes[n].table == nodes[n].table && (n != peer ==> s.nodes[n].server.Free?)
  }

  lemma LookIsReceive(c: Crypto, nodes: Nodes, s: P.System, me: UserHost, b: Block, todo: seq<UserHost>,
                      peer: UserHost, now: UInt64, burned: nat)
    requires Matches(nodes, s) && Asking(s, me, b, todo) && peer in nodes
    requires IncomingAccepts(c, Contents(nodes[peer].table), b, now)
    ensures P.Enabled(c, s, P.Validate(peer, b, now))
    ensures P.Enabled(c, P.Apply(c, s, P.Validate(peer, b, now)), P.LookIncoming(peer))
    ensures var s2 := P.Apply(c, P.Apply(c, s, P.Validate(peer, b, now)), P.LookIncoming(peer));
            && Asking(s2, me, b, todo) && s2.commits == s.commits
            && (if ChildRefused(nodes[peer].table, b)
                then (peer, b) in s2.acks && Matches(nodes[peer := Receive(c, nodes[peer], b, now, burned).0], s2)
                else Half(nodes, s2, peer, b))
  {
  }

  lemma InsertIsReceive(c: Crypto, nodes: Nodes, s: P.System, me: UserHost, b: Block, todo: seq<UserHost>,
                        peer: UserHost, now: UInt64, burned: nat)
    requires Half(nodes, s, peer, b) && Asking(s, me, b, todo) && !ChildRefused(nodes[peer].table, b)
    requires IncomingAccepts(c, Contents(nodes[peer].table), b, now)
    ensures P.Enabled(c, s, P.InsertIncoming(peer, burned))
    ensures var s1 := P.Apply(c, s, P.InsertIncoming(peer, burned));
            && Matches(nodes[peer := Receive(c, nodes[peer], b, now, burned).0], s1)
            && Asking(s1, me, b, todo) && (peer, b) in s1.acks && s1.commits == s.commits
  {
  }

  // A step of the client alone: on to the next peer, or giving up.
  lemma ClientMoves(c: Crypto, nodes: Nodes, s: P.System, me: UserHost, b: Block, todo: seq<UserHost>, step: P.Step)
    requires Matches(nodes, s) && Asking(s, me, b, todo) && todo != []
    requires step == P.Skip(me) || step == P.Abort(me) || (step == P.Hear(me) && (todo[0], b) in s.acks)
    ensures P.Enabled(c, s, step)
    ensures var s1 := P.Apply(c, s, step);
            && Matches(nodes, s1) && s1.commits == s.commits && me in s1.nodes
            && (if step.Abort? then s1.nodes[me].client.Idle? else Asking(s1, me, b, todo[1..]))
  {
  }

  // One offer, step by step: the tables end the same, and the client goes on or gives up as the loop does.
  lemma OfferIsRun(c: Crypto, nodes: Nodes, s: P.System, me: UserHost, b: Block, todo: seq<UserHost>,
                   link: Link, burned: nat)
    requires Matches(nodes, s) && Asking(s, me, b, todo) && todo != []
    ensures var steps := OfferSteps(c, nodes, me, b, todo[0], link, burned);
            && P.Legal(c, s, steps)
            && var s', (nodes', ok) := P.Final(c, s, steps), Offer(c, nodes, b, todo[0], link, burned);
               && Matches(nodes', s') && s'.commits == s.commits && me in s'.nodes
               && (if ok then Asking(s', me, b, todo[1..]) else s'.nodes[me].client.Idle?)
  {
    var peer := todo[0];
    if link.Down? || peer !in nodes || link.Lost? || !IncomingAccepts(c, Contents(nodes[peer].table), b, link.now) {
      var step := if link.Down? || peer !in nodes then P.Skip(me) else P.Abort(me);
      ClientMoves(c, nodes, s, me, b, todo, step);
      OneStep(c, s, step);
    } else {
      var steps := ReceiveSteps(nodes[peer].table, peer, b, link.now, burned);
      var last := if link.Up? then P.Hear(me) else P.Abort(me);
      ReceiveIsRun(c, nodes, s, me, b, todo, peer, link.now, burned);
      var s1 := P.Final(c, s, steps);
      ClientMoves(c, nodes[peer := Receive(c, nodes[peer], b, link.now, burned).0], s1, me, b, todo, last);
      OneStep(c, s1, last);
      RunConcat(c, s, steps, [last]);
    }
  }

  predicate OneMore(commits: seq<P.Commit>, commits': seq<P.Commit>, me: UserHost, b: Block) {
    && |commits'| == |commits| + 1 && commits'[..|commits|] == commits
    && commits'[|commits|].block == b && commits'[|commits|].sender == me
  }

  lemma StoreIsRun(c: Crypto, nodes: Nodes, s: P.System, me: UserHost, b: Block, burned: nat)
    requires me in nodes && Matches(nodes, s) && Asking(s, me, b, [])
    ensures var steps := StoreSteps(nodes[me].table, me, b, burned);
            && P.Legal(c, s, steps)
            && var s', (nodes', stored) := P.Final(c, s, steps), StoreAndBroadcast(c, nodes, me, b, [], [], burned);
               && Matches(nodes', s') && me in s'.nodes && s'.nodes[me].client.Idle?
               && (if stored then OneMore(s.commits, s'.commits, me, b) else s'.commits == s.commits)
  {
    assert s.commits + [] == s.commits;
    if ChildRefused(nodes[me].table, b) {
      OneStep(c, s, P.LookOwn(me));
      assert [P.LookOwn(me)] + [] == [P.LookOwn(me)];
    } else {
      var s1 := P.Apply(c, s, P.LookOwn(me));
      assert s1.commits == s.commits;
      TwoSteps(c, s, P.LookOwn(me), P.InsertOwn(me, burned));
    }
  }

  // The sequential broadcast is a legal run of the interleaving machine: same tables at the end, and
  // a commit of this block by this sender on record exactly when it reports success. So all that
  // holds of every run holds of it.
  lemma {:induction false} BroadcastIsProtocolRun(c: Crypto, nodes: Nodes, s: P.System, me: UserHost, b: Block,
                                                  peers: seq<UserPeer>, links: seq<Link>, burned: nat)
    requires me in nodes && |links| == |peers|
    requires Matches(nodes, s) && Asking(s, me, b, Addresses(peers))
    ensures var steps := BroadcastSteps(c, nodes, me, b, peers, links, burned);
            && P.Legal(c, s, steps)
            && var s' := P.Final(c, s, steps);
               var (nodes', stored) := StoreAndBroadcast(c, nodes, me, b, peers, links, burned);
               && Matches(nodes', s') && me in s'.nodes && s'.nodes[me].client.Idle?
               && (if stored then OneMore(s.commits, s'.commits, me, b) else s'.commits == s.commits)
    decreases |peers|
  {
    if peers == [] {
      StoreIsRun(c, nodes, s, me, b, burned);
    } else {
      var addrs := Addresses(peers);
      var steps := OfferSteps(c, nodes, me, b, addrs[0], links[0], burned);
      var (nodes', ok) := Offer(c, nodes, b, addrs[0], links[0], burned);
      OfferIsRun(c, nodes, s, me, b, addrs, links[0], burned);
      if ok {
        var s' := P.Final(c, s, steps);
        assert addrs[1..] == Addresses(peers[1..]);
        BroadcastIsProtocolRun(c, nodes', s', me, b, peers[1..], links[1..], burned);
        RunConcat(c, s, steps, BroadcastSteps(c, nodes', me, b, peers[1..], links[1..], burned));
      }
    }
  }
}
