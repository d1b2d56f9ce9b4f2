/**
 When chains stay valid: the exact condition over every interleaving, empty nodes included, and the
 discipline under which it always holds.
 */
module Validity {
  import opened Blocks
  import opened Chain
  import opened ChainDB
  import opened TextMessages
  import opened Protocol

  ghost predicate AllValid(c: Crypto, s: System) {
    forall n | n in s.nodes :: ValidChain(c, ChainOf(s, n))
  }

  // A self-consistent block on "0" or on a stored block.
  predicate Extends(c: Crypto, t: Table, b: Block) {
    SingleValid(c, b) && (b.previousHash == NO_HASH || HasHash(Contents(t), b.previousHash))
  }

  ghost predicate ValidNode(c: Crypto, node: NodeState) {
    && WellFormed(node.table) && ValidChain(c, Contents(node.table))
    && (forall b | InFlight(node, b) :: Extends(c, node.table, b))
  }

  ghost predicate Valid(c: Crypto, s: System) {
    forall n | n in s.nodes :: ValidNode(c, s.nodes[n])
  }

  // The INSERT would store a new block whose parent already has a child, "0" included.
  predicate SecondChild(t: Table, b: Block) {
    HasChild(Contents(t), b.previousHash) && !HasHash(Contents(t), b.hash)
  }

  predicate Forks(s: System, step: Step) {
    step.n in s.nodes &&
    var node := s.nodes[step.n];
    || (step.InsertOwn? && node.client.Storing? && SecondChild(node.table, node.client.block))
    || (step.InsertIncoming? && node.server.Inserting? && SecondChild(node.table, node.server.block))
  }

  ghost predicate NoForks(c: Crypto, s: System, steps: seq<Step>)
    requires Legal(c, s, steps)
    decreases |steps|
  {
    steps != [] ==> !Forks(s, steps[0]) && NoForks(c, Apply(c, s, steps[0]), steps[1..])
  }

  // Only the tip of a valid chain, or "0" of an empty one, is a parent without a child.
  lemma ChildlessParent(c: Crypto, bs: seq<Block>, h: string)
    requires ValidChain(c, bs) && UniqueHashes(bs) && (h == NO_HASH || HasHash(bs, h))
    ensures HasChild(bs, h) <==> h != TipHash(bs)
  {
    if bs != [] {
      assert BlockOk(c, bs, 0);
      ValidParent(c, bs, |bs| - 1);
      if h != NO_HASH {
        var k :| 0 <= k < |bs| && bs[k].hash == h;
        ChildlessIsTip(c, bs, k);
      }
    }
  }

  // The INSERT keeps a valid chain valid exactly when it stores no second child.
  lemma InsertKeepsValid(c: Crypto, t: Table, b: Block, burned: nat)
    requires WellFormed(t) && ValidChain(c, Contents(t)) && Extends(c, t, b)
    ensures WellFormed(RawInsert(t, b, burned).0)
    ensures ValidChain(c, Contents(RawInsert(t, b, burned).0)) <==> !SecondChild(t, b)
  {
    RawAppends(t, b, burned);
    ChildlessParent(c, Contents(t), b.previousHash);
    ValidAppend(c, Contents(t), b);
  }

  lemma ExtendsGrows(c: Crypto, t: Table, t': Table, b: Block)
    requires Extends(c, t, b) && Contents(t) <= Contents(t')
    ensures Extends(c, t', b)
  {
    if b.previousHash != NO_HASH { HashStays(Contents(t), Contents(t'), b.previousHash); }
  }

  lemma TipIsKnown(c: Crypto, t: Table, b: Block)
    requires SingleValid(c, b) && b.previousHash == TipHash(Contents(t))
    ensures Extends(c, t, b)
  {
    var bs := Contents(t);
    assert bs != [] ==> bs[|bs| - 1].hash == b.previousHash;
  }

  lemma ValidStep(c: Crypto, s: System, step: Step)
    requires Enabled(c, s, step) && ValidNode(c, s.nodes[step.n]) && !Forks(s, step)
    ensures ValidNode(c, Moved(c, s, step))
  {
    var node, node' := s.nodes[step.n], Moved(c, s, step);
    match step {
      case Create(n, b) => TipIsKnown(c, node.table, b);
      case Validate(n, b, now) => TipIsKnown(c, node.table, b);
      case InsertOwn(n, burned) =>
        assert InFlight(node, node.client.block);
        InsertKeepsValid(c, node.table, node.client.block, burned);
        RawPrefix(node.table, node.client.block, burned);
      case InsertIncoming(n, burned) =>
        assert InFlight(node, node.server.block);
        InsertKeepsValid(c, node.table, node.server.block, burned);
        RawPrefix(node.table, node.server.block, burned);
      case _ =>
    }
    forall b | InFlight(node', b) && InFlight(node, b) ensures Extends(c, node'.table, b) {
      ExtendsGrows(c, node.table, node'.table, b);
    }
  }

  lemma ForkBreaks(c: Crypto, s: System, step: Step)
    requires Enabled(c, s, step) && ValidNode(c, s.nodes[step.n]) && Forks(s, step)
    ensures !ValidChain(c, ChainOf(Apply(c, s, step), step.n))
  {
    var node := s.nodes[step.n];
    var b := if step.InsertOwn? then node.client.block else node.server.block;
    assert InFlight(node, b);
    InsertKeepsValid(c, node.table, b, step.burned);
  }

  lemma BrokenStays(c: Crypto, s: System, s': System, n: UserHost)
    requires Grows(s, s') && n in s.nodes && !ValidChain(c, ChainOf(s, n))
    ensures !AllValid(c, s')
  {
    var bs, bs' := ChainOf(s, n), ChainOf(s', n);
    assert bs'[..|bs|] == bs;
    if ValidChain(c, bs') { ValidPrefix(c, bs', |bs|); }
  }

  lemma ValidSystemStep(c: Crypto, s: System, step: Step)
    requires Enabled(c, s, step) && Valid(c, s) && !Forks(s, step)
    ensures Valid(c, Apply(c, s, step))
  {
    assert ValidNode(c, s.nodes[step.n]);
    ValidStep(c, s, step);
  }

  // From valid chains, empty ones included, whatever the interleaving: all chains end valid exactly when
  // no INSERT of the run stores a new block whose parent already has a child.
  lemma {:induction false} ValidUnlessForked(c: Crypto, s: System, steps: seq<Step>)
    requires Legal(c, s, steps) && Valid(c, s)
    ensures AllValid(c, Final(c, s, steps)) <==> NoForks(c, s, steps)
    decreases |steps|
  {
    if steps == [] {
      forall n | n in s.nodes ensures ValidChain(c, ChainOf(s, n)) { assert ValidNode(c, s.nodes[n]); }
    } else {
      var s1 := Apply(c, s, steps[0]);
      assert ValidNode(c, s.nodes[steps[0].n]);
      if Forks(s, steps[0]) {
        ForkBreaks(c, s, steps[0]);
        RunGrows(c, s1, steps[1..]);
        BrokenStays(c, s1, Final(c, s1, steps[1..]), steps[0].n);
      } else {
        ValidSystemStep(c, s, steps[0]);
        ValidUnlessForked(c, s1, steps[1..]);
      }
    }
  }

  // ---------- One insertBlock at a time on each node ----------

  // No thread enters insertBlock while the node's other thread is inside.
  predicate Enters(s: System, step: Step) {
    step.n in s.nodes
    && (step.LookOwn? ==> !s.nodes[step.n].server.Inserting?)
    && (step.LookIncoming? ==> !s.nodes[step.n].client.Storing?)
  }

  ghost predicate OneAtATime(c: Crypto, s: System, steps: seq<Step>)
    requires Legal(c, s, steps)
    decreases |steps|
  {
    steps != [] ==> Enters(s, steps[0]) && OneAtATime(c, Apply(c, s, steps[0]), steps[1..])
  }

  // Then what a look-up found still holds at the INSERT.
  predicate ClearNode(node: NodeState) {
    && !(node.client.Storing? && node.server.Inserting?)
    && (node.client.Storing? ==> !ChildRefused(node.table, node.client.block))
    && (node.server.Inserting? ==> !ChildRefused(node.table, node.server.block))
  }

  predicate Clear(s: System) {
    forall n | n in s.nodes :: ClearNode(s.nodes[n])
  }

  lemma ClearStep(c: Crypto, s: System, step: Step)
    requires Enabled(c, s, step) && Clear(s) && Enters(s, step)
    ensures Clear(Apply(c, s, step))
  {
    assert ClearNode(s.nodes[step.n]);
  }

  ghost predicate NonEmpty(s: System) {
    forall n | n in s.nodes :: ChainOf(s, n) != []
  }

  // Once every chain has its first block nothing in flight names "0".
  predicate OffZeroNode(node: NodeState) {
    && (!node.client.Idle? ==> node.client.block.previousHash != NO_HASH)
    && (!node.server.Free? ==> node.server.block.previousHash != NO_HASH)
  }

  predicate OffZero(s: System) {
    forall n | n in s.nodes :: OffZeroNode(s.nodes[n])
  }

  lemma OffZeroStep(c: Crypto, s: System, step: Step)
    requires Enabled(c, s, step) && Valid(c, s) && NonEmpty(s) && OffZero(s)
    ensures OffZero(Apply(c, s, step))
  {
    var bs := ChainOf(s, step.n);
    assert ValidNode(c, s.nodes[step.n]);
    ValidParent(c, bs, |bs| - 1);
    assert OffZeroNode(s.nodes[step.n]);
    assert OffZeroNode(Moved(c, s, step));
  }

  ghost predicate Steady(c: Crypto, s: System) {
    Valid(c, s) && NonEmpty(s) && OffZero(s) && Clear(s)
  }

  // An undisturbed INSERT finds no child of its parent.
  lemma UndisturbedInsert(s: System, step: Step)
    requires step.n in s.nodes && OffZero(s) && Clear(s)
    ensures !Forks(s, step)
    ensures step.InsertOwn? && s.nodes[step.n].client.Storing? ==>
              !HasChild(ChainOf(s, step.n), s.nodes[step.n].client.block.previousHash)
    ensures step.InsertIncoming? && s.nodes[step.n].server.Inserting? ==>
              !HasChild(ChainOf(s, step.n), s.nodes[step.n].server.block.previousHash)
  {
    assert ClearNode(s.nodes[step.n]) && OffZeroNode(s.nodes[step.n]);
  }

  lemma SteadyStep(c: Crypto, s: System, step: Step)
    requires Enabled(c, s, step) && Steady(c, s) && Enters(s, step)
    ensures !Forks(s, step) && Steady(c, Apply(c, s, step))
  {
    UndisturbedInsert(s, step);
    StepGrows(c, s, step);
    ValidSystemStep(c, s, step);
    OffZeroStep(c, s, step);
    ClearStep(c, s, step);
  }

  lemma {:induction false} SteadyRun(c: Crypto, s: System, steps: seq<Step>)
    requires Legal(c, s, steps) && OneAtATime(c, s, steps) && Steady(c, s)
    ensures NoForks(c, s, steps) && Steady(c, Final(c, s, steps))
    decreases |steps|
  {
    if steps != [] {
      SteadyStep(c, s, steps[0]);
      SteadyRun(c, Apply(c, s, steps[0]), steps[1..]);
    }
  }

  lemma StartIsSteady(c: Crypto, s: System)
    requires Start(c, s) && AllValid(c, s) && NonEmpty(s)
    ensures Steady(c, s)
  {
  }

  // From non-empty valid chains, when the threads of a node do not overlap in insertBlock, every chain
  // only grows at its end and always passes validateLocalChain, however stale a block is when inserted.
  lemma StaleInsertsHarmless(c: Crypto, s: System, steps: seq<Step>)
    requires Start(c, s) && AllValid(c, s) && NonEmpty(s)
    requires Legal(c, s, steps) && OneAtATime(c, s, steps)
    ensures AllValid(c, Final(c, s, steps)) && Grows(s, Final(c, s, steps))
  {
    StartIsSteady(c, s);
    SteadyRun(c, s, steps);
    RunGrows(c, s, steps);
    ValidUnlessForked(c, s, steps);
  }
}
