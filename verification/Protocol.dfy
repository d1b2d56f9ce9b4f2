/**
 The commit protocol as a state machine (src/infra/network/TCPClient.cpp:81-160,
 src/domain/blockchain/BlockchainService.cpp:79-154, src/infra/blockchain/ChainDB.cpp:35-63).

 Each node runs one client thread (at most one send at a time) and one server thread (one request at
 a time); their steps interleave in any order. insertBlock is what it is in the code: a look-up of
 children and an INSERT, each locked on its own (src/service/db/DBFile.cpp:93-160), between which the
 node's other thread may run, even inside its own insertBlock.

 Any block may arrive at any server at any time, also one that no client of the system made. A client
 may give up whenever an answer could be lost, and a server whenever anything could throw, so the runs
 here include every behaviour of the network.
 */
module Protocol {
  import opened Blocks
  import opened Chain
  import opened ChainDB
  import opened BlockchainService
  import opened TextMessages

  datatype Client =
    | Idle
    | Holding(block: Block)
    | Broadcasting(block: Block, todo: seq<UserHost>, answered: set<UserHost>)
    | Storing(block: Block, answered: set<UserHost>)  // between look-up and INSERT

  datatype Server =
    | Free
    | Accepted(block: Block)
    | Inserting(block: Block)  // between look-up and INSERT

  datatype NodeState = NodeState(table: Table, client: Client, server: Server)

  // A send whose storeAndBroadcastBlock returned true. The audience is the sender and the peers that
  // answered: a peer that could not be reached is counted as agreeing but is not in it.
  datatype Commit = Commit(block: Block, sender: UserHost, audience: set<UserHost>)

  // `accepted` and `commits` record history: who made or validated which block, and which sends were
  // stored. `acks` are the "{}" answers.
  datatype System = System(
    nodes: map<UserHost, NodeState>,
    accepted: set<(UserHost, Block)>,
    acks: set<(UserHost, Block)>,
    commits: seq<Commit>
  )

  datatype Step =
    | Create(n: UserHost, block: Block)                 // createBlockFromMessage
    | Begin(n: UserHost, peers: seq<UserHost>)          // getPeers
    | Skip(n: UserHost)                                 // the next peer cannot be reached
    | Hear(n: UserHost)                                 // the next peer answered "{}"
    | Abort(n: UserHost)                                // refused, no usable answer, or an exception
    | LookOwn(n: UserHost)                              // every peer asked: insertBlock looks for a child
    | InsertOwn(n: UserHost, burned: nat)               // and inserts
    | Validate(n: UserHost, block: Block, now: UInt64)  // validateIncomingBlock finds the block on the tip
    | LookIncoming(n: UserHost)                         // onIncomingBlock: insertBlock looks for a child
    | InsertIncoming(n: UserHost, burned: nat)          // and inserts; the result is ignored
    | Drop(n: UserHost)                                 // an error instead of "{}"

  function ChainOf(s: System, n: UserHost): seq<Block>
    requires n in s.nodes
  {
    Contents(s.nodes[n].table)
  }

  // A block is made on the tip and, the node's keys matching, self-consistent (NewBlockValid).
  predicate Enabled(c: Crypto, s: System, step: Step) {
    step.n in s.nodes &&
    var node := s.nodes[step.n];
    match step
    case Create(n, b) => node.client.Idle? && SingleValid(c, b) && b.previousHash == TipHash(ChainOf(s, n))
    case Begin(n, peers) => node.client.Holding?
    case Skip(n) => node.client.Broadcasting? && node.client.todo != []
    case Hear(n) =>
      node.client.Broadcasting? && node.client.todo != [] && (node.client.todo[0], node.client.block) in s.acks
    case Abort(n) => !node.client.Idle?
    case LookOwn(n) => node.client.Broadcasting? && node.client.todo == []
    case InsertOwn(n, burned) => node.client.Storing?
    case Validate(n, b, now) => node.server.Free? && IncomingAccepts(c, ChainOf(s, n), b, now)
    case LookIncoming(n) => node.server.Accepted?
    case InsertIncoming(n, burned) => node.server.Inserting?
    case Drop(n) => !node.server.Free?
  }

  // The node that steps, after the step.
  function Moved(c: Crypto, s: System, step: Step): NodeState
    requires Enabled(c, s, step)
  {
    var node := s.nodes[step.n];
    var client, server := node.client, node.server;
    match step
    case Create(n, b) => node.(client := Holding(b))
    case Begin(n, peers) => node.(client := Broadcasting(client.block, peers, {}))
    case Skip(n) => node.(client := Broadcasting(client.block, client.todo[1..], client.answered))
    case Hear(n) =>
      node.(client := Broadcasting(client.block, client.todo[1..], client.answered + {client.todo[0]}))
    case Abort(n) => node.(client := Idle)
    case LookOwn(n) =>
      node.(client := if ChildRefused(node.table, client.block) then Idle else Storing(client.block, client.answered))
    case InsertOwn(n, burned) => node.(table := RawInsert(node.table, client.block, burned).0, client := Idle)
    case Validate(n, b, now) => node.(server := Accepted(b))
    case LookIncoming(n) =>
      node.(server := if ChildRefused(node.table, server.block) then Free else Inserting(server.block))
    case InsertIncoming(n, burned) => node.(table := RawInsert(node.table, server.block, burned).0, server := Free)
    case Drop(n) => node.(server := Free)
  }

  // The send a storing client is about to commit.
  function Attempt(s: System, n: UserHost): Commit
    requires n in s.nodes && s.nodes[n].client.Storing?
  {
    Commit(s.nodes[n].client.block, n, {n} + s.nodes[n].client.answered)
  }

  // The commit a step makes, if any.
  function Committed(c: Crypto, s: System, step: Step): seq<Commit>
    requires Enabled(c, s, step)
  {
    if step.InsertOwn? && RawInsert(s.nodes[step.n].table, s.nodes[step.n].client.block, step.burned).1
    then [Attempt(s, step.n)]
    else []
  }

  // The server answers "{}" when insertBlock has returned, whatever it returned.
  predicate Acknowledges(s: System, step: Step) {
    step.n in s.nodes &&
    var node := s.nodes[step.n];
    || (step.LookIncoming? && node.server.Accepted? && ChildRefused(node.table, node.server.block))
    || (step.InsertIncoming? && node.server.Inserting?)
  }

  function Apply(c: Crypto, s: System, step: Step): System
    requires Enabled(c, s, step)
  {
    System(
      s.nodes[step.n := Moved(c, s, step)],
      s.accepted + (if step.Create? || step.Validate? then {(step.n, step.block)} else {}),
      s.acks + (if Acknowledges(s, step) then {(step.n, s.nodes[step.n].server.block)} else {}),
      s.commits + Committed(c, s, step))
  }

  ghost predicate Legal(c: Crypto, s: System, steps: seq<Step>)
    decreases |steps|
  {
    steps != [] ==> Enabled(c, s, steps[0]) && Legal(c, Apply(c, s, steps[0]), steps[1..])
  }

  ghost function Final(c: Crypto, s: System, steps: seq<Step>): System
    requires Legal(c, s, steps)
    decreases |steps|
  {
    if steps == [] then s else Final(c, Apply(c, s, steps[0]), steps[1..])
  }

  // ---------- What only grows ----------

  predicate Grows(s: System, s': System) {
    && s'.nodes.Keys == s.nodes.Keys
    && (forall n | n in s.nodes :: ChainOf(s, n) <= ChainOf(s', n))
    && s.accepted <= s'.accepted
    && s.acks <= s'.acks
    && s.commits <= s'.commits
  }

  lemma RawPrefix(t: Table, b: Block, burned: nat)
    ensures Contents(t) <= Contents(RawInsert(t, b, burned).0)
  {
    ContentsAppended(t, b);
  }

  lemma StepGrows(c: Crypto, s: System, step: Step)
    requires Enabled(c, s, step)
    ensures Grows(s, Apply(c, s, step))
  {
    var node := s.nodes[step.n];
    match step
    case InsertOwn(n, burned) => RawPrefix(node.table, node.client.block, burned);
    case InsertIncoming(n, burned) => RawPrefix(node.table, node.server.block, burned);
    case _ =>
  }

  lemma {:induction false} RunGrows(c: Crypto, s: System, steps: seq<Step>)
    requires Legal(c, s, steps)
    ensures Grows(s, Final(c, s, steps))
    decreases |steps|
  {
    if steps != [] {
      StepGrows(c, s, steps[0]);
      RunGrows(c, Apply(c, s, steps[0]), steps[1..]);
    }
  }

  lemma ChildStays(xs: seq<Block>, ys: seq<Block>, h: string)
    requires xs <= ys && HasChild(xs, h)
    ensures HasChild(ys, h)
  {
    var i :| 0 <= i < |xs| && xs[i].previousHash == h;
    assert ys[i].previousHash == h;
  }

  lemma HashStays(xs: seq<Block>, ys: seq<Block>, h: string)
    requires xs <= ys && HasHash(xs, h)
    ensures HasHash(ys, h)
  {
    var i :| 0 <= i < |xs| && xs[i].hash == h;
    assert ys[i].hash == h;
  }

  // ---------- Threads are independent and can always give up ----------

  // Any busy client can give up, and nothing changes but its being busy.
  lemma ClientGivesUp(c: Crypto, s: System, n: UserHost)
    requires n in s.nodes && s.nodes[n].client != Idle
    ensures Enabled(c, s, Abort(n))
    ensures Apply(c, s, Abort(n))
         == System(s.nodes[n := NodeState(s.nodes[n].table, Idle, s.nodes[n].server)], s.accepted, s.acks, s.commits)
  {
  }

  // So can any busy server.
  lemma ServerGivesUp(c: Crypto, s: System, n: UserHost)
    requires n in s.nodes && s.nodes[n].server != Free
    ensures Enabled(c, s, Drop(n))
    ensures Apply(c, s, Drop(n))
         == System(s.nodes[n := NodeState(s.nodes[n].table, s.nodes[n].client, Free)], s.accepted, s.acks, s.commits)
  {
  }

  // What the second call of insertBlock leaves behind at a server: the block at the tip unless its hash is
  // taken, and an acknowledgement in any case.
  lemma ServerInserts(c: Crypto, s: System, n: UserHost, b: Block, burned: nat)
    requires n in s.nodes && s.nodes[n].server == Inserting(b)
    ensures Enabled(c, s, InsertIncoming(n, burned))
    ensures var s' := Apply(c, s, InsertIncoming(n, burned));
            && ChainOf(s', n) == ChainOf(s, n) + (if HasHash(ChainOf(s, n), b.hash) then [] else [b])
            && s'.acks == s.acks + {(n, b)} && s'.nodes[n].server == Free
            && s'.nodes[n].client == s.nodes[n].client && s'.commits == s.commits
  {
    ContentsAppended(s.nodes[n].table, b);
  }

  // And at a client: a commit exactly when the hash was not taken, heard by those that answered.
  lemma ClientInserts(c: Crypto, s: System, n: UserHost, b: Block, answered: set<UserHost>, burned: nat)
    requires n in s.nodes && s.nodes[n].client == Storing(b, answered)
    ensures Enabled(c, s, InsertOwn(n, burned))
    ensures var s', taken := Apply(c, s, InsertOwn(n, burned)), HasHash(ChainOf(s, n), b.hash);
            && ChainOf(s', n) == ChainOf(s, n) + (if taken then [] else [b])
            && s'.commits == s.commits + (if taken then [] else [Commit(b, n, {n} + answered)])
            && s'.nodes[n].client == Idle && s'.nodes[n].server == s.nodes[n].server && s'.acks == s.acks
  {
    ContentsAppended(s.nodes[n].table, b);
  }

  // One send at a time, in order: a block is made, then offered, peer after peer, then looked up for and
  // inserted, always the same block; at any point the client may be idle again.
  predicate NextPhase(client: Client, client': Client) {
    || client' == client || client' == Idle
    || (client == Idle && client'.Holding?)
    || (client.Holding? && client'.Broadcasting? && client'.block == client.block && client'.answered == {})
    || (&& client.Broadcasting? && client.todo != [] && client'.Broadcasting? && client'.block == client.block
        && client'.todo == client.todo[1..]
        && client'.answered in {client.answered, client.answered + {client.todo[0]}})
    || (client.Broadcasting? && client.todo == [] && client' == Storing(client.block, client.answered))
  }

  // One request at a time: validated, then looked up for, then inserted or not.
  predicate NextRequest(server: Server, server': Server) {
    || server' == server || server' == Free
    || (server == Free && server'.Accepted?)
    || (server.Accepted? && server' == Inserting(server.block))
  }

  lemma Phases(c: Crypto, s: System, step: Step)
    requires Enabled(c, s, step)
    ensures var node, node' := s.nodes[step.n], Apply(c, s, step).nodes[step.n];
            && NextPhase(node.client, node'.client) && NextRequest(node.server, node'.server)
            && (node'.client == node.client || node'.server == node.server)
            && (!step.InsertOwn? && !step.InsertIncoming? ==> node'.table == node.table)
  {
  }

  // Validation is that of the extended chain, by the node's clock.
  lemma ValidatesExactly(c: Crypto, s: System, n: UserHost, b: Block, now: UInt64)
    requires n in s.nodes && s.nodes[n].server == Free && WellFormed(s.nodes[n].table) && ValidChain(c, ChainOf(s, n))
    ensures Enabled(c, s, Validate(n, b, now)) <==>
            ValidChain(c, ChainOf(s, n) + [b]) && !HasHash(ChainOf(s, n), b.hash)
            && b.timestamp <= (now + 300000) % 0x1_0000_0000_0000_0000
  {
    IncrementalIsWholeChain(c, s.nodes[n].table, b, now, 0);
  }

  predicate OfServer(step: Step) {
    step.Validate? || step.LookIncoming? || step.InsertIncoming? || step.Drop?
  }

  // What a node's server may do and does to the table does not depend on its client, and the reverse.
  lemma ServerIgnoresClient(c: Crypto, s: System, step: Step, client: Client)
    requires step.n in s.nodes && OfServer(step)
    ensures var other := s.(nodes := s.nodes[step.n := s.nodes[step.n].(client := client)]);
            && (Enabled(c, s, step) <==> Enabled(c, other, step))
            && (Enabled(c, s, step) ==> Moved(c, other, step) == Moved(c, s, step).(client := client))
  {
  }

  lemma ClientIgnoresServer(c: Crypto, s: System, step: Step, server: Server)
    requires step.n in s.nodes && !OfServer(step)
    ensures var other := s.(nodes := s.nodes[step.n := s.nodes[step.n].(server := server)]);
            && (Enabled(c, s, step) <==> Enabled(c, other, step))
            && (Enabled(c, s, step) ==> Moved(c, other, step) == Moved(c, s, step).(server := server))
  {
  }

  // ---------- Clashes in a run ----------

  // A block some table holds or some node made or validated.
  predicate Known(s: System, b: Block) {
    || (exists n | n in s.nodes :: b in ChainOf(s, n))
    || (exists e | e in s.accepted :: e.1 == b)
  }

  ghost predicate RunClash(c: Crypto, s: System) {
    exists x, y :: Known(s, x) && Known(s, y) && Clash(c, x, y)
  }

  lemma KnownGrows(s: System, s': System, b: Block)
    requires Grows(s, s') && Known(s, b)
    ensures Known(s', b)
  {
    if n :| n in s.nodes && b in ChainOf(s, n) {
      assert b in ChainOf(s', n);
    } else {
      var e :| e in s.accepted && e.1 == b;
      assert e in s'.accepted;
    }
  }

  lemma ClashGrows(c: Crypto, s: System, s': System)
    requires Grows(s, s') && RunClash(c, s)
    ensures RunClash(c, s')
  {
    var x, y :| Known(s, x) && Known(s, y) && Clash(c, x, y);
    KnownGrows(s, s', x);
    KnownGrows(s, s', y);
  }

  lemma ChainsClashInRun(c: Crypto, s: System, p: UserHost, q: UserHost)
    requires p in s.nodes && q in s.nodes && ChainsClash(c, ChainOf(s, p), ChainOf(s, q))
    ensures RunClash(c, s)
  {
    var xs, ys := ChainOf(s, p), ChainOf(s, q);
    var i, j :| 0 <= i < |xs| && 0 <= j < |ys| && Clash(c, xs[i], ys[j]);
    assert xs[i] in xs && Known(s, xs[i]);
    assert ys[j] in ys && Known(s, ys[j]);
  }

  // ---------- Every block in the system is self-consistent ----------

  // Hash, signature and a parent that is "0" or a hash.
  predicate SoundBlock(c: Crypto, b: Block) {
    SingleValid(c, b) && BarFree(b.previousHash)
  }

  predicate SoundChain(c: Crypto, bs: seq<Block>) {
    forall b | b in bs :: SoundBlock(c, b)
  }

  predicate InFlight(node: NodeState, b: Block) {
    || (!node.client.Idle? && node.client.block == b)
    || (!node.server.Free? && node.server.block == b)
  }

  ghost predicate SoundNode(c: Crypto, s: System, n: UserHost)
    requires n in s.nodes
  {
    var node := s.nodes[n];
    && WellFormed(node.table)
    && SoundChain(c, Contents(node.table))
    && (forall b | InFlight(node, b) :: SoundBlock(c, b) && (n, b) in s.accepted)
    && (node.client.Broadcasting? || node.client.Storing? ==>
          forall q | q in node.client.answered :: (q, node.client.block) in s.acks)
  }

  // An acknowledged block was accepted by a node of the system whose chain now has a child of its parent.
  ghost predicate AckOk(s: System, p: UserHost, b: Block) {
    p in s.nodes && (p, b) in s.accepted && HasChild(ChainOf(s, p), b.previousHash)
  }

  ghost predicate CommitOk(s: System, co: Commit) {
    && co.sender in co.audience
    && (forall q | q in co.audience :: AckOk(s, q, co.block))
  }

  ghost predicate InOrder(c: Crypto, s: System) {
    && (forall n | n in s.nodes :: SoundNode(c, s, n))
    && (forall a | a in s.acks :: AckOk(s, a.0, a.1))
    && (forall co | co in s.commits :: CommitOk(s, co))
  }

  // What a valid chain holds is sound.
  lemma ValidIsSound(c: Crypto, bs: seq<Block>)
    requires ValidChain(c, bs)
    ensures SoundChain(c, bs)
  {
    forall i | 0 <= i < |bs| ensures SoundBlock(c, bs[i]) { ValidParent(c, bs, i); }
  }

  lemma TipBarFree(c: Crypto, bs: seq<Block>)
    requires SoundChain(c, bs)
    ensures BarFree(TipHash(bs))
  {
    if bs != [] {
      assert SoundBlock(c, bs[|bs| - 1]);
      Sha256Shape(c, Canonical(bs[|bs| - 1]));
    }
  }

  lemma RawSound(c: Crypto, t: Table, b: Block, burned: nat)
    requires WellFormed(t) && SoundChain(c, Contents(t)) && SoundBlock(c, b)
    ensures WellFormed(RawInsert(t, b, burned).0) && SoundChain(c, Contents(RawInsert(t, b, burned).0))
  {
    RawAppends(t, b, burned);
  }

  lemma SoundStep(c: Crypto, s: System, step: Step, m: UserHost)
    requires Enabled(c, s, step) && m in s.nodes && SoundNode(c, s, m)
    ensures SoundNode(c, Apply(c, s, step), m)
  {
    var node := s.nodes[m];
    if m == step.n {
      match step
      case Create(n, b) => TipBarFree(c, ChainOf(s, n));
      case Validate(n, b, now) => TipBarFree(c, ChainOf(s, n));
      case InsertOwn(n, burned) =>
        assert InFlight(node, node.client.block);
        RawSound(c, node.table, node.client.block, burned);
      case InsertIncoming(n, burned) =>
        assert InFlight(node, node.server.block);
        RawSound(c, node.table, node.server.block, burned);
      case _ =>
        assert forall b | InFlight(Moved(c, s, step), b) :: InFlight(node, b);
    }
  }

  // After the INSERT the block's parent has a child, whether or not the INSERT succeeded, unless the
  // block clashes with one already stored.
  lemma ChildAfterInsert(c: Crypto, t: Table, b: Block, burned: nat)
    requires WellFormed(t) && SoundChain(c, Contents(t)) && SoundBlock(c, b)
    ensures HasChild(Contents(RawInsert(t, b, burned).0), b.previousHash)
         || exists x | x in Contents(t) :: Clash(c, x, b)
  {
    var bs := Contents(t);
    RawAppends(t, b, burned);
    if HasHash(bs, b.hash) {
      var i :| 0 <= i < |bs| && bs[i].hash == b.hash;
      assert bs[i] in bs;
      SameHashSameText(c, bs[i], b);
    } else {
      assert (bs + [b])[|bs|].previousHash == b.previousHash;
    }
  }

  lemma AckGrows(s: System, s': System, p: UserHost, b: Block)
    requires Grows(s, s') && AckOk(s, p, b)
    ensures AckOk(s', p, b)
  {
    ChildStays(ChainOf(s, p), ChainOf(s', p), b.previousHash);
  }

  // A new acknowledgement is in order.
  lemma NewAckOk(c: Crypto, s: System, step: Step)
    requires Enabled(c, s, step) && SoundNode(c, s, step.n) && Acknowledges(s, step)
    ensures RunClash(c, Apply(c, s, step)) || AckOk(Apply(c, s, step), step.n, s.nodes[step.n].server.block)
  {
    var node, s' := s.nodes[step.n], Apply(c, s, step);
    var b := node.server.block;
    assert InFlight(node, b);
    StepGrows(c, s, step);
    if step.InsertIncoming? {
      ChildAfterInsert(c, node.table, b, step.burned);
      if x :| x in Contents(node.table) && Clash(c, x, b) {
        assert x in ChainOf(s, step.n);
        KnownGrows(s, s', x);
        assert (step.n, b) in s'.accepted && Known(s', b);
      }
    }
  }

  lemma AcksStep(c: Crypto, s: System, step: Step)
    requires Enabled(c, s, step) && InOrder(c, s) && !RunClash(c, Apply(c, s, step))
    ensures forall a | a in Apply(c, s, step).acks :: AckOk(Apply(c, s, step), a.0, a.1)
  {
    var s' := Apply(c, s, step);
    StepGrows(c, s, step);
    forall a | a in s'.acks ensures AckOk(s', a.0, a.1) {
      if a in s.acks {
        AckGrows(s, s', a.0, a.1);
      } else {
        NewAckOk(c, s, step);
      }
    }
  }

  // A commit finds everyone in its audience with a child of its parent.
  lemma NewCommitOk(c: Crypto, s: System, step: Step, q: UserHost)
    requires Enabled(c, s, step) && InOrder(c, s) && Committed(c, s, step) != [] && q in Attempt(s, step.n).audience
    ensures AckOk(Apply(c, s, step), q, Attempt(s, step.n).block)
  {
    var node, s' := s.nodes[step.n], Apply(c, s, step);
    assert SoundNode(c, s, step.n) && InFlight(node, node.client.block);
    StepGrows(c, s, step);
    if q == step.n {
      RawAppends(node.table, node.client.block, step.burned);
      assert ChainOf(s', q)[|Contents(node.table)|] == node.client.block;
    } else {
      assert (q, node.client.block) in s.acks;
      AckGrows(s, s', q, node.client.block);
    }
  }

  lemma CommitsStep(c: Crypto, s: System, step: Step)
    requires Enabled(c, s, step) && InOrder(c, s)
    ensures forall co | co in Apply(c, s, step).commits :: CommitOk(Apply(c, s, step), co)
  {
    var s' := Apply(c, s, step);
    StepGrows(c, s, step);
    forall co | co in s'.commits ensures CommitOk(s', co) {
      if co in s.commits {
        forall q | q in co.audience ensures AckOk(s', q, co.block) { AckGrows(s, s', q, co.block); }
      } else {
        forall q | q in co.audience ensures AckOk(s', q, co.block) { NewCommitOk(c, s, step, q); }
      }
    }
  }

  lemma InOrderStep(c: Crypto, s: System, step: Step)
    requires Enabled(c, s, step) && InOrder(c, s) && !RunClash(c, Apply(c, s, step))
    ensures InOrder(c, Apply(c, s, step))
  {
    forall n | n in s.nodes ensures SoundNode(c, Apply(c, s, step), n) { SoundStep(c, s, step, n); }
    AcksStep(c, s, step);
    CommitsStep(c, s, step);
  }

  // ---------- Exclusion ----------

  // Two blocks of a chain name "0" as their parent.
  predicate TwoFirst(bs: seq<Block>) {
    exists i, j :: 0 <= i < j < |bs| && bs[i].previousHash == NO_HASH && bs[j].previousHash == NO_HASH
  }

  // What a send on "0", which insertBlock does not guard, does to its sender's chain when it is not the
  // first: it has made a second first block there (`done`), or is about to.
  predicate Spoils(s: System, x: Commit, done: bool) {
    && x.block.previousHash == NO_HASH && x.sender in s.nodes
    && if done then TwoFirst(ChainOf(s, x.sender)) else HasChild(ChainOf(s, x.sender), NO_HASH)
  }

  // Two sends on one parent: not each in the other's audience, or one of them spoils its sender's chain.
  predicate Excluded(s: System, x: Commit, xDone: bool, y: Commit, yDone: bool) {
    x.block.previousHash == y.block.previousHash && x.sender in y.audience && y.sender in x.audience
    ==> Spoils(s, x, xDone) || Spoils(s, y, yDone)
  }

  // Commits, and attempts whose look-up found no child, exclude one another.
  ghost predicate Exclusive(s: System) {
    && (forall i, j | 0 <= i < j < |s.commits| :: Excluded(s, s.commits[i], true, s.commits[j], true))
    && (forall co, n | co in s.commits && n in s.nodes && s.nodes[n].client.Storing? ::
          Excluded(s, co, true, Attempt(s, n), false))
    && (forall n, m | n in s.nodes && m in s.nodes && n != m
                      && s.nodes[n].client.Storing? && s.nodes[m].client.Storing? ::
          Excluded(s, Attempt(s, n), false, Attempt(s, m), false))
  }

  ghost predicate Safe(c: Crypto, s: System) {
    InOrder(c, s) && Exclusive(s)
  }

  lemma SpoilsGrows(s: System, s': System, x: Commit, done: bool)
    requires Grows(s, s') && Spoils(s, x, done)
    ensures Spoils(s', x, done)
  {
    var bs, bs' := ChainOf(s, x.sender), ChainOf(s', x.sender);
    if done {
      var i, j :| 0 <= i < j < |bs| && bs[i].previousHash == NO_HASH && bs[j].previousHash == NO_HASH;
      assert bs'[i].previousHash == NO_HASH && bs'[j].previousHash == NO_HASH;
    } else {
      ChildStays(bs, bs', NO_HASH);
    }
  }

  lemma ExcludedGrows(s: System, s': System, x: Commit, xDone: bool, y: Commit, yDone: bool)
    requires Grows(s, s') && Excluded(s, x, xDone, y, yDone)
    ensures Excluded(s', x, xDone, y, yDone)
  {
    if Spoils(s, x, xDone) { SpoilsGrows(s, s', x, xDone); }
    if Spoils(s, y, yDone) { SpoilsGrows(s, s', y, yDone); }
  }

  // A look-up that finds no child at a node: nobody who has heard from the node on this parent has
  // committed or passed its own look-up. On "0" there is no look-up, but then a child is in the way.
  lemma PassedLookUp(c: Crypto, s: System, n: UserHost, x: Commit, done: bool)
    requires InOrder(c, s) && n in s.nodes && s.nodes[n].client.Broadcasting?
    requires !ChildRefused(s.nodes[n].table, s.nodes[n].client.block)
    requires if done then x in s.commits
             else x.sender != n && x.sender in s.nodes && s.nodes[x.sender].client.Storing? && x == Attempt(s, x.sender)
    ensures x.block.previousHash == s.nodes[n].client.block.previousHash && n in x.audience ==>
              s.nodes[n].client.block.previousHash == NO_HASH && HasChild(ChainOf(s, n), NO_HASH)
  {
    if n in x.audience {
      if done {
        assert CommitOk(s, x);
      } else {
        assert SoundNode(c, s, x.sender);
        assert (n, x.block) in s.acks;
      }
      assert AckOk(s, n, x.block);
    }
  }

  // What a step does to attempts: one may appear, one may end, all others stay.
  lemma AttemptsAfter(c: Crypto, s: System, step: Step, m: UserHost)
    requires Enabled(c, s, step) && m in s.nodes && Apply(c, s, step).nodes[m].client.Storing?
    ensures if m == step.n && step.LookOwn?
            then s.nodes[m].client.Broadcasting? && !ChildRefused(s.nodes[m].table, s.nodes[m].client.block)
                 && Attempt(Apply(c, s, step), m).block == s.nodes[m].client.block
            else s.nodes[m].client.Storing? && Attempt(Apply(c, s, step), m) == Attempt(s, m)
                 && (m == step.n ==> Committed(c, s, step) == [])
  {
  }

  lemma CommitAndAttempt(c: Crypto, s: System, step: Step, co: Commit, m: UserHost)
    requires Enabled(c, s, step) && Safe(c, s) && co in Apply(c, s, step).commits
    requires m in s.nodes && Apply(c, s, step).nodes[m].client.Storing?
    ensures Excluded(Apply(c, s, step), co, true, Attempt(Apply(c, s, step), m), false)
  {
    var s' := Apply(c, s, step);
    StepGrows(c, s, step);
    AttemptsAfter(c, s, step, m);
    if m == step.n && step.LookOwn? {
      PassedLookUp(c, s, m, co, true);
    } else if co in s.commits {
      ExcludedGrows(s, s', co, true, Attempt(s, m), false);
    } else {
      assert co == Attempt(s, step.n) && m != step.n;
      ExcludedGrows(s, s', co, false, Attempt(s, m), false);
      SpoiltByCommit(c, s, step);
    }
  }

  // An attempt on "0" that commits although a child is there makes a second one.
  lemma SpoiltByCommit(c: Crypto, s: System, step: Step)
    requires Enabled(c, s, step) && Committed(c, s, step) != []
    ensures Spoils(Apply(c, s, step), Attempt(s, step.n), false) && Spoils(s, Attempt(s, step.n), false) ==>
              Spoils(Apply(c, s, step), Attempt(s, step.n), true)
  {
    var bs, b := ChainOf(s, step.n), s.nodes[step.n].client.block;
    ContentsAppended(s.nodes[step.n].table, b);
    assert (bs + [b])[|bs|] == b;
    if HasChild(bs, NO_HASH) {
      var i :| 0 <= i < |bs| && bs[i].previousHash == NO_HASH;
      assert (bs + [b])[i].previousHash == NO_HASH;
    }
  }

  lemma TwoAttempts(c: Crypto, s: System, step: Step, n: UserHost, m: UserHost)
    requires Enabled(c, s, step) && Safe(c, s) && n in s.nodes && m in s.nodes && n != m
    requires Apply(c, s, step).nodes[n].client.Storing? && Apply(c, s, step).nodes[m].client.Storing?
    ensures Excluded(Apply(c, s, step), Attempt(Apply(c, s, step), n), false, Attempt(Apply(c, s, step), m), false)
  {
    StepGrows(c, s, step);
    AttemptsAfter(c, s, step, n);
    AttemptsAfter(c, s, step, m);
    if n == step.n && step.LookOwn? {
      PassedLookUp(c, s, n, Attempt(s, m), false);
    } else if m == step.n && step.LookOwn? {
      PassedLookUp(c, s, m, Attempt(s, n), false);
    } else {
      ExcludedGrows(s, Apply(c, s, step), Attempt(s, n), false, Attempt(s, m), false);
    }
  }

  lemma TwoCommits(c: Crypto, s: System, step: Step, i: nat, j: nat)
    requires Enabled(c, s, step) && Safe(c, s) && i < j < |Apply(c, s, step).commits|
    ensures Excluded(Apply(c, s, step), Apply(c, s, step).commits[i], true, Apply(c, s, step).commits[j], true)
  {
    var s' := Apply(c, s, step);
    StepGrows(c, s, step);
    if j < |s.commits| {
      ExcludedGrows(s, s', s.commits[i], true, s.commits[j], true);
    } else {
      var x, y := s.commits[i], Attempt(s, step.n);
      assert x in s.commits && s'.commits[j] == y;
      ExcludedGrows(s, s', x, true, y, false);
      SpoiltByCommit(c, s, step);
    }
  }

  lemma SafeStep(c: Crypto, s: System, step: Step)
    requires Enabled(c, s, step) && Safe(c, s) && !RunClash(c, Apply(c, s, step))
    ensures Safe(c, Apply(c, s, step))
  {
    var s' := Apply(c, s, step);
    InOrderStep(c, s, step);
    forall i, j | 0 <= i < j < |s'.commits| ensures Excluded(s', s'.commits[i], true, s'.commits[j], true) {
      TwoCommits(c, s, step, i, j);
    }
    forall co, n | co in s'.commits && n in s'.nodes && s'.nodes[n].client.Storing?
      ensures Excluded(s', co, true, Attempt(s', n), false)
    {
      CommitAndAttempt(c, s, step, co, n);
    }
    forall n, m | n in s'.nodes && m in s'.nodes && n != m && s'.nodes[n].client.Storing? && s'.nodes[m].client.Storing?
      ensures Excluded(s', Attempt(s', n), false, Attempt(s', m), false)
    {
      TwoAttempts(c, s, step, n, m);
    }
  }

  lemma {:induction false} SafeRun(c: Crypto, s: System, steps: seq<Step>)
    requires Legal(c, s, steps) && Safe(c, s)
    ensures RunClash(c, Final(c, s, steps)) || Safe(c, Final(c, s, steps))
    decreases |steps|
  {
    if steps != [] {
      var s1 := Apply(c, s, steps[0]);
      if RunClash(c, s1) {
        RunGrows(c, s1, steps[1..]);
        ClashGrows(c, s1, Final(c, s1, steps[1..]));
      } else {
        SafeStep(c, s, steps[0]);
        SafeRun(c, s1, steps[1..]);
      }
    }
  }

  // ---------- Commit exclusivity ----------

  // Threads at rest, nothing said yet, tables that hold self-consistent blocks (as every valid chain does).
  ghost predicate Start(c: Crypto, s: System) {
    && s.accepted == {} && s.acks == {} && s.commits == []
    && forall n | n in s.nodes ::
         && s.nodes[n].client.Idle? && s.nodes[n].server.Free?
         && WellFormed(s.nodes[n].table) && SoundChain(c, ChainOf(s, n))
  }

  lemma TwoFirstInvalid(c: Crypto, bs: seq<Block>)
    requires TwoFirst(bs)
    ensures !ValidChain(c, bs)
  {
    if ValidChain(c, bs) {
      var i, j :| 0 <= i < j < |bs| && bs[i].previousHash == NO_HASH && bs[j].previousHash == NO_HASH;
      ValidParent(c, bs, j);
    }
  }

  // In no interleaving do two sends on one parent both commit with each sender in the other's audience,
  // except on "0", which insertBlock does not guard, and there only at the price of an invalid chain at
  // one of the senders (BothCommitOnZero). When a sender looks for a child it has heard from all its
  // peers, so of two senders that hear from each other each would have to look before the other.
  lemma CommitExclusivity(c: Crypto, s: System, steps: seq<Step>, i: nat, j: nat)
    requires Start(c, s) && Legal(c, s, steps)
    requires i < j < |Final(c, s, steps).commits|
    ensures var s' := Final(c, s, steps); var x, y := s'.commits[i], s'.commits[j];
            || RunClash(c, s')
            || x.block.previousHash != y.block.previousHash
            || x.sender !in y.audience || y.sender !in x.audience
            || (&& x.block.previousHash == NO_HASH && x.sender in s'.nodes && y.sender in s'.nodes
                && !(ValidChain(c, ChainOf(s', x.sender)) && ValidChain(c, ChainOf(s', y.sender))))
  {
    SafeRun(c, s, steps);
    var s' := Final(c, s, steps);
    if !RunClash(c, s') {
      var x, y := s'.commits[i], s'.commits[j];
      assert Excluded(s', x, true, y, true) && CommitOk(s', x) && CommitOk(s', y);
      if Spoils(s', x, true) { TwoFirstInvalid(c, ChainOf(s', x.sender)); }
      if Spoils(s', y, true) { TwoFirstInvalid(c, ChainOf(s', y.sender)); }
    }
  }
}
