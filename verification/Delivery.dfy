/**
 A whole sendSecretMessage and what it leaves behind, alone and in sequence.
 */
module Delivery {
  import opened Hex
  import opened Blocks
  import opened Chain
  import opened ChainDB
  import opened TextMessages
  import opened BlockchainService
  import opened Messages
  import opened Sending
  import opened Broadcasts
  import P = Protocol

  // What the network does to one send. `textSent` is the connection to the receiver, `textHandled` whether
  // its handler ran, `noticeArrives` whether an error notice reaches it.
  datatype Circumstances = Circumstances(
    textSent: bool,
    textHandled: bool,
    links: seq<Link>,
    noticeArrives: bool,
    burned: nat
  )

  datatype Outcome = NotSent | Stored | Aborted

  // handleIncomingTextMessage: a text that cannot be read is answered with an error and not stored.
  function ReceiveText(c: Crypto, node: Node, e: Envelope): Node {
    if Deserialize(c, e, node.privateKey, false).Some?
    then node.(messages := InsertMessage(node.messages, RowOf(e, e.blockHash)))
    else node
  }

  function RemoveAt(nodes: Nodes, n: UserHost, blockHash: string): Nodes {
    if n in nodes then nodes[n := nodes[n].(messages := RemoveByBlockHash(nodes[n].messages, blockHash))] else nodes
  }

  function MakeBlock(c: Crypto, nodes: Nodes, me: UserHost, m: TextMessage): Block
    requires me in nodes
  {
    NewBlock(c, TipHash(ChainAt(nodes, me)), m, nodes[me].privateKey)
  }

  // The message as both ends store it.
  function SentForm(c: Crypto, nodes: Nodes, me: UserHost, m: TextMessage): Envelope
    requires me in nodes
  {
    Serialize(c, m.(blockHash := MakeBlock(c, nodes, me, m).hash), nodes[me].privateKey)
  }

  // Receiver first, then the sender's own copy.
  function WithTexts(c: Crypto, nodes: Nodes, me: UserHost, m: TextMessage, handled: bool): Nodes
    requires me in nodes
  {
    var e, to := SentForm(c, nodes, me, m), m.to.address;
    var received := if handled && to in nodes then nodes[to := ReceiveText(c, nodes[to], e)] else nodes;
    received[me := received[me].(messages := InsertMessage(received[me].messages, RowOf(e, e.blockHash)))]
  }

  // sendSecretMessage
  function Send(c: Crypto, nodes: Nodes, me: UserHost, m: TextMessage, net: Circumstances): (Nodes, Outcome)
    requires me in nodes && |net.links| == |nodes[me].peers|
  {
    if !net.textSent then (nodes, NotSent)
    else
      var b := MakeBlock(c, nodes, me, m);
      var (offered, stored) :=
        StoreAndBroadcast(c, WithTexts(c, nodes, me, m, net.textHandled), me, b,
                          nodes[me].peers, net.links, net.burned);
      if stored then (offered, Stored)
      else
        var mine := RemoveAt(offered, me, b.hash);
        (if net.noticeArrives then RemoveAt(mine, m.to.address, b.hash) else mine, Aborted)
  }

  // ---------- What a send touches ----------

  // Of a table only rows with this hash went, and only rows with this id and hash came.
  predicate OnlyAbout(rows: seq<MessageRow>, rows': seq<MessageRow>, id: string, h: string) {
    && (forall r | r in rows && r.blockHash != h :: r in rows')
    && (forall r | r in rows' :: r in rows || (r.messageId == id && r.blockHash == h))
    && (UniqueIds(rows) ==> UniqueIds(rows'))
  }

  // The node afterwards is the node before but for its chain and its messages.
  predicate SameButData(x: Node, y: Node) {
    y == x.(table := y.table, messages := y.messages)
  }

  predicate SameButMessages(x: Node, y: Node) {
    y == x.(messages := y.messages)
  }

  lemma InsertIsAbout(rows: seq<MessageRow>, row: MessageRow)
    ensures OnlyAbout(rows, InsertMessage(rows, row), row.messageId, row.blockHash)
    ensures rows <= InsertMessage(rows, row)
  {
  }

  lemma RemovalTouches(nodes: Nodes, x: UserHost, n: UserHost, before: seq<MessageRow>, id: string, h: string)
    requires n in nodes && OnlyAbout(before, nodes[n].messages, id, h)
    ensures var nodes' := RemoveAt(nodes, x, h);
            && nodes'.Keys == nodes.Keys && SameButData(nodes[n], nodes'[n]) && nodes'[n].table == nodes[n].table
            && OnlyAbout(before, nodes'[n].messages, id, h)
            && (n != x ==> nodes'[n] == nodes[n])
  {
    RemoveKeepsOthers(nodes[n].messages, h);
  }

  lemma TextsAreAbout(c: Crypto, nodes: Nodes, me: UserHost, m: TextMessage, handled: bool, n: UserHost)
    requires me in nodes && n in nodes
    ensures var texts := WithTexts(c, nodes, me, m, handled);
            && texts.Keys == nodes.Keys && SameButData(nodes[n], texts[n]) && texts[n].table == nodes[n].table
            && OnlyAbout(nodes[n].messages, texts[n].messages, m.id, MakeBlock(c, nodes, me, m).hash)
            && nodes[n].messages <= texts[n].messages
            && (n != me && (n != m.to.address || !handled) ==> texts[n] == nodes[n])
  {
    var e := SentForm(c, nodes, me, m);
    InsertIsAbout(nodes[n].messages, RowOf(e, e.blockHash));
    InsertIsAbout(InsertMessage(nodes[n].messages, RowOf(e, e.blockHash)), RowOf(e, e.blockHash));
  }

  // Whatever the network does, a send touches no messages but the sender's and the receiver's, and of
  // those only rows of its own: it adds none but its own, and removes none unless it aborts.
  lemma SendKeepsMessages(c: Crypto, nodes: Nodes, me: UserHost, m: TextMessage, net: Circumstances, n: UserHost)
    requires me in nodes && |net.links| == |nodes[me].peers| && n in nodes
    ensures var (nodes', outcome), h := Send(c, nodes, me, m, net), MakeBlock(c, nodes, me, m).hash;
            && n in nodes' && OnlyAbout(nodes[n].messages, nodes'[n].messages, m.id, h)
            && (outcome != Aborted ==> nodes[n].messages <= nodes'[n].messages)
            && (n != me && n != m.to.address ==> nodes'[n].messages == nodes[n].messages)
  {
    if net.textSent {
      var b, rows := MakeBlock(c, nodes, me, m), nodes[n].messages;
      var texts := WithTexts(c, nodes, me, m, net.textHandled);
      TextsAreAbout(c, nodes, me, m, net.textHandled, n);
      BroadcastTouches(c, texts, me, b, nodes[me].peers, net.links, net.burned, n);
      var (offered, stored) := StoreAndBroadcast(c, texts, me, b, nodes[me].peers, net.links, net.burned);
      if !stored {
        RemovalTouches(offered, me, n, rows, m.id, b.hash);
        RemovalTouches(RemoveAt(offered, me, b.hash), m.to.address, n, rows, m.id, b.hash);
      }
    }
  }

  lemma RemovalKeepsTables(nodes: Nodes, x: UserHost, h: string)
    ensures var nodes' := RemoveAt(nodes, x, h);
            nodes'.Keys == nodes.Keys && forall n | n in nodes :: SameButMessages(nodes[n], nodes'[n])
  {
  }

  lemma OfferKeepsChains(c: Crypto, nodes: Nodes, me: UserHost, m: TextMessage, net: Circumstances, n: UserHost)
    requires me in nodes && |net.links| == |nodes[me].peers| && n in nodes
    ensures var texts := WithTexts(c, nodes, me, m, net.textHandled);
            var offered :=
              StoreAndBroadcast(c, texts, me, MakeBlock(c, nodes, me, m), nodes[me].peers, net.links, net.burned).0;
            && offered.Keys == nodes.Keys && SameButData(nodes[n], offered[n])
            && (n != me && !Asked(nodes[me].peers, n) ==> offered[n].table == nodes[n].table)
  {
    var texts := WithTexts(c, nodes, me, m, net.textHandled);
    TextsKeepChains(c, nodes, me, m, net.textHandled);
    BroadcastTouches(c, texts, me, MakeBlock(c, nodes, me, m), nodes[me].peers, net.links, net.burned, n);
  }

  // It touches nobody's keys and peers, and no chains but those of the sender and its peers.
  lemma SendKeepsChains(c: Crypto, nodes: Nodes, me: UserHost, m: TextMessage, net: Circumstances, n: UserHost)
    requires me in nodes && |net.links| == |nodes[me].peers| && n in nodes
    ensures var nodes' := Send(c, nodes, me, m, net).0;
            && nodes'.Keys == nodes.Keys && SameButData(nodes[n], nodes'[n])
            && (n != me && !Asked(nodes[me].peers, n) ==> nodes'[n].table == nodes[n].table)
  {
    if net.textSent {
      var b, texts := MakeBlock(c, nodes, me, m), WithTexts(c, nodes, me, m, net.textHandled);
      OfferKeepsChains(c, nodes, me, m, net, n);
      var offered := StoreAndBroadcast(c, texts, me, b, nodes[me].peers, net.links, net.burned).0;
      RemovalKeepsTables(offered, me, b.hash);
      RemovalKeepsTables(RemoveAt(offered, me, b.hash), m.to.address, b.hash);
    }
  }

  // What became of one node.
  predicate Touched(nodes: Nodes, nodes': Nodes, me: UserHost, m: TextMessage, h: string, n: UserHost)
    requires me in nodes && n in nodes && n in nodes'
  {
    && SameButData(nodes[n], nodes'[n])
    && OnlyAbout(nodes[n].messages, nodes'[n].messages, m.id, h)
    && (n != me && n != m.to.address ==> nodes'[n].messages == nodes[n].messages)
    && (n != me && !Asked(nodes[me].peers, n) ==> nodes'[n].table == nodes[n].table)
  }

  lemma SendTouches(c: Crypto, nodes: Nodes, me: UserHost, m: TextMessage, net: Circumstances)
    requires me in nodes && |net.links| == |nodes[me].peers|
    ensures var (nodes', outcome), h := Send(c, nodes, me, m, net), MakeBlock(c, nodes, me, m).hash;
            && nodes'.Keys == nodes.Keys
            && (forall n | n in nodes' :: Touched(nodes, nodes', me, m, h, n))
            && (outcome != Aborted ==> forall n | n in nodes' :: nodes[n].messages <= nodes'[n].messages)
  {
    var (nodes', outcome) := Send(c, nodes, me, m, net);
    var h := MakeBlock(c, nodes, me, m).hash;
    SendKeepsChains(c, nodes, me, m, net, me);
    forall n | n in nodes'
      ensures Touched(nodes, nodes', me, m, h, n)
      ensures outcome != Aborted ==> nodes[n].messages <= nodes'[n].messages
    {
      SendKeepsChains(c, nodes, me, m, net, n);
      SendKeepsMessages(c, nodes, me, m, net, n);
    }
  }

  // ---------- A whole send is a run of the protocol ----------

  // A block made and given up when the text cannot be sent; otherwise made, offered and stored or not.
  function SendSteps(c: Crypto, nodes: Nodes, me: UserHost, m: TextMessage, net: Circumstances): seq<P.Step>
    requires me in nodes && |net.links| == |nodes[me].peers|
  {
    var b, peers := MakeBlock(c, nodes, me, m), nodes[me].peers;
    if !net.textSent then [P.Create(me, b)] + [P.Abort(me)]
    else
      [P.Create(me, b)] + [P.Begin(me, Addresses(peers))]
      + BroadcastSteps(c, WithTexts(c, nodes, me, m, net.textHandled), me, b, peers, net.links, net.burned)
  }

  lemma CreateIsStep(c: Crypto, nodes: Nodes, s: P.System, me: UserHost, b: Block)
    requires me in nodes && Matches(nodes, s) && s.nodes[me].client.Idle?
    requires SingleValid(c, b) && b.previousHash == TipHash(ChainAt(nodes, me))
    ensures P.Enabled(c, s, P.Create(me, b))
    ensures var s1 := P.Apply(c, s, P.Create(me, b));
            Matches(nodes, s1) && s1.commits == s.commits && s1.nodes[me].client == P.Holding(b)
  {
  }

  lemma BeginIsStep(c: Crypto, nodes: Nodes, s: P.System, me: UserHost, b: Block, todo: seq<UserHost>)
    requires me in nodes && Matches(nodes, s) && s.nodes[me].client == P.Holding(b)
    ensures P.Enabled(c, s, P.Begin(me, todo)) && P.Enabled(c, s, P.Abort(me))
    ensures var s1 := P.Apply(c, s, P.Begin(me, todo));
            Matches(nodes, s1) && s1.commits == s.commits && Asking(s1, me, b, todo)
    ensures var s1 := P.Apply(c, s, P.Abort(me));
            Matches(nodes, s1) && s1.commits == s.commits && s1.nodes[me].client.Idle?
  {
  }

  // A whole sendSecretMessage of an idle node, also one that cannot send its text, is a legal run: the
  // tables end the same, the client is idle again, and the commit is on record exactly when it succeeds.
  lemma SendIsProtocolRun(c: Crypto, nodes: Nodes, s: P.System, me: UserHost, m: TextMessage, net: Circumstances)
    requires Lawful(c) && me in nodes && c.paired(nodes[me].privateKey, m.from.publicKey)
    requires |net.links| == |nodes[me].peers| && Matches(nodes, s) && s.nodes[me].client.Idle?
    ensures var steps := SendSteps(c, nodes, me, m, net);
            && P.Legal(c, s, steps)
            && var s' := P.Final(c, s, steps);
               var (nodes', outcome) := Send(c, nodes, me, m, net);
               && Matches(nodes', s') && me in s'.nodes && s'.nodes[me].client.Idle?
               && (if outcome == Stored then OneMore(s.commits, s'.commits, me, MakeBlock(c, nodes, me, m))
                   else s'.commits == s.commits)
  {
    var b, peers := MakeBlock(c, nodes, me, m), nodes[me].peers;
    var todo := Addresses(peers);
    NewBlockValid(c, TipHash(ChainAt(nodes, me)), m, nodes[me].privateKey);
    CreateIsStep(c, nodes, s, me, b);
    var s1 := P.Apply(c, s, P.Create(me, b));
    BeginIsStep(c, nodes, s1, me, b, todo);
    if !net.textSent {
      TwoSteps(c, s, P.Create(me, b), P.Abort(me));
    } else {
      var first := [P.Create(me, b)] + [P.Begin(me, todo)];
      TwoSteps(c, s, P.Create(me, b), P.Begin(me, todo));
      var steps := BroadcastSteps(c, WithTexts(c, nodes, me, m, net.textHandled), me, b, peers, net.links, net.burned);
      BroadcastOfSend(c, nodes, P.Final(c, s, first), me, m, net);
      RunConcat(c, s, first, steps);
    }
  }

  lemma BroadcastOfSend(c: Crypto, nodes: Nodes, s: P.System, me: UserHost, m: TextMessage, net: Circumstances)
    requires me in nodes && |net.links| == |nodes[me].peers| && net.textSent
    requires Matches(nodes, s) && Asking(s, me, MakeBlock(c, nodes, me, m), Addresses(nodes[me].peers))
    ensures var texts, b := WithTexts(c, nodes, me, m, net.textHandled), MakeBlock(c, nodes, me, m);
            var steps := BroadcastSteps(c, texts, me, b, nodes[me].peers, net.links, net.burned);
            && P.Legal(c, s, steps)
            && var s', (nodes', outcome) := P.Final(c, s, steps), Send(c, nodes, me, m, net);
               && Matches(nodes', s') && me in s'.nodes && s'.nodes[me].client.Idle?
               && (if outcome == Stored then OneMore(s.commits, s'.commits, me, b) else s'.commits == s.commits)
  {
    var texts, b := WithTexts(c, nodes, me, m, net.textHandled), MakeBlock(c, nodes, me, m);
    TextsKeepChains(c, nodes, me, m, net.textHandled);
    BroadcastIsProtocolRun(c, texts, s, me, b, nodes[me].peers, net.links, net.burned);
    var offered := StoreAndBroadcast(c, texts, me, b, nodes[me].peers, net.links, net.burned).0;
    RemovalKeepsTables(offered, me, b.hash);
    RemovalKeepsTables(RemoveAt(offered, me, b.hash), m.to.address, b.hash);
  }

  // ---------- A send is all or nothing ----------

  predicate NewClash(c: Crypto, bs: seq<Block>, b: Block) {
    exists i | 0 <= i < |bs| :: Clash(c, bs[i], b)
  }

  // Sender and receiver with matching keys, a message id neither has seen, a valid chain at the sender.
  ghost predicate Ready(c: Crypto, nodes: Nodes, me: UserHost, m: TextMessage) {
    && Lawful(c)
    && me in nodes && m.to.address in nodes
    && c.paired(nodes[me].privateKey, m.from.publicKey)
    && c.paired(nodes[m.to.address].privateKey, m.to.publicKey)
    && WellFormed(nodes[me].table) && ValidChain(c, ChainAt(nodes, me))
    && !HasMessage(nodes[me].messages, m.id) && !HasMessage(nodes[m.to.address].messages, m.id)
  }

  // And a receiver that reads and stores the text and would get the notice.
  ghost predicate Deliverable(c: Crypto, nodes: Nodes, me: UserHost, m: TextMessage, net: Circumstances) {
    && Ready(c, nodes, me, m) && |net.links| == |nodes[me].peers|
    && (net.textSent ==> net.textHandled) && net.noticeArrives
  }

  lemma InsertRecords(rows: seq<MessageRow>, row: MessageRow)
    requires !HasMessage(rows, row.messageId)
    ensures Recorded(InsertMessage(rows, row), row.messageId, row.blockHash)
    ensures HasMessage(InsertMessage(rows, row), row.messageId)
  {
    var rows' := InsertMessage(rows, row);
    assert rows'[|rows|] == row;
  }

  lemma TextsKeepChains(c: Crypto, nodes: Nodes, me: UserHost, m: TextMessage, handled: bool)
    requires me in nodes
    ensures var nodes' := WithTexts(c, nodes, me, m, handled);
            nodes'.Keys == nodes.Keys && forall n | n in nodes :: SameButMessages(nodes[n], nodes'[n])
  {
  }

  // After the text went out both ends have the row, and chains and peers are untouched.
  lemma TextsRecorded(c: Crypto, nodes: Nodes, me: UserHost, m: TextMessage, net: Circumstances)
    requires Deliverable(c, nodes, me, m, net) && net.textSent
    ensures var nodes', h := WithTexts(c, nodes, me, m, true), MakeBlock(c, nodes, me, m).hash;
            && nodes'.Keys == nodes.Keys
            && nodes'[me].table == nodes[me].table
            && Recorded(nodes'[me].messages, m.id, h) && Recorded(nodes'[m.to.address].messages, m.id, h)
  {
    var e, to := SentForm(c, nodes, me, m), m.to.address;
    SerializeRoundTrip(c, m.(blockHash := MakeBlock(c, nodes, me, m).hash), nodes[me].privateKey, nodes[to].privateKey);
    assert ReceiveText(c, nodes[to], e).messages == InsertMessage(nodes[to].messages, RowOf(e, e.blockHash));
    InsertRecords(nodes[to].messages, RowOf(e, e.blockHash));
    InsertRecords(nodes[me].messages, RowOf(e, e.blockHash));
  }

  // Removing at one node clears it there and leaves every other node and every table alone.
  lemma RemovedAtOne(nodes: Nodes, x: UserHost, h: string)
    requires x in nodes
    ensures var nodes' := RemoveAt(nodes, x, h);
            && nodes'.Keys == nodes.Keys && !MentionsHash(nodes'[x].messages, h)
            && forall n | n in nodes :: nodes'[n].table == nodes[n].table && (n != x ==> nodes'[n] == nodes[n])
  {
    RemoveKeepsOthers(nodes[x].messages, h);
  }

  lemma RemovedAtBoth(nodes: Nodes, x: UserHost, y: UserHost, h: string)
    requires x in nodes && y in nodes
    ensures var nodes' := RemoveAt(RemoveAt(nodes, x, h), y, h);
            && nodes'.Keys == nodes.Keys && (forall n | n in nodes :: nodes'[n].table == nodes[n].table)
            && !MentionsHash(nodes'[x].messages, h) && !MentionsHash(nodes'[y].messages, h)
  {
    RemovedAtOne(nodes, x, h);
    RemovedAtOne(RemoveAt(nodes, x, h), y, h);
  }

  // A completed send leaves the block in the sender's chain and the message at both ends, or no such
  // block there and no message with its hash at either end; or the block clashes with the sender's
  // chain. A send that never connected changes nothing.
  predicate AllOrNothing(c: Crypto, nodes: Nodes, me: UserHost, m: TextMessage, nodes': Nodes, outcome: Outcome)
    requires me in nodes
  {
    var b, to := MakeBlock(c, nodes, me, m), m.to.address;
    && nodes'.Keys == nodes.Keys && to in nodes'
    && (outcome == NotSent ==> nodes' == nodes)
    && (outcome == Stored ==>
          && ChainAt(nodes', me) == ChainAt(nodes, me) + [b]
          && Recorded(nodes'[me].messages, m.id, b.hash) && Recorded(nodes'[to].messages, m.id, b.hash))
    && (outcome == Aborted ==>
          && ChainAt(nodes', me) == ChainAt(nodes, me)
          && (NewClash(c, ChainAt(nodes, me), b) || !HasHash(ChainAt(nodes', me), b.hash))
          && !MentionsHash(nodes'[me].messages, b.hash) && !MentionsHash(nodes'[to].messages, b.hash))
  }

  lemma SendIsAllOrNothing(c: Crypto, nodes: Nodes, me: UserHost, m: TextMessage, net: Circumstances)
    requires Deliverable(c, nodes, me, m, net) && !Asked(nodes[me].peers, me)
    ensures AllOrNothing(c, nodes, me, m, Send(c, nodes, me, m, net).0, Send(c, nodes, me, m, net).1)
  {
    var b, to := MakeBlock(c, nodes, me, m), m.to.address;
    NewBlockValid(c, TipHash(ChainAt(nodes, me)), m, nodes[me].privateKey);
    FreshOnTip(c, ChainAt(nodes, me), b);
    if net.textSent {
      TextsRecorded(c, nodes, me, m, net);
      var texts := WithTexts(c, nodes, me, m, true);
      var peers := nodes[me].peers;
      var (offered, stored) := StoreAndBroadcast(c, texts, me, b, peers, net.links, net.burned);
      BroadcastAtSender(c, texts, me, b, peers, net.links, net.burned);
      BroadcastTouches(c, texts, me, b, peers, net.links, net.burned, me);
      BroadcastTouches(c, texts, me, b, peers, net.links, net.burned, to);
      if !stored {
        RemovedAtBoth(offered, me, to, b.hash);
      }
    }
  }

  // Where the message is on record after a send, whatever the network does: at the sender after a commit,
  // at another receiver when its handler ran, unless it was told of an abort.
  lemma RecordedExactly(c: Crypto, nodes: Nodes, me: UserHost, m: TextMessage, net: Circumstances, n: UserHost)
    requires Ready(c, nodes, me, m) && |net.links| == |nodes[me].peers| && (n == me || n == m.to.address)
    ensures var (nodes', outcome) := Send(c, nodes, me, m, net);
            && n in nodes'
            && (HasMessage(nodes'[n].messages, m.id) <==>
                  if n == me then outcome == Stored
                  else net.textSent && net.textHandled && (outcome == Stored || !net.noticeArrives))
  {
    if net.textSent {
      var b, texts := MakeBlock(c, nodes, me, m), WithTexts(c, nodes, me, m, net.textHandled);
      RecordedTexts(c, nodes, me, m, net.textHandled);
      BroadcastTouches(c, texts, me, b, nodes[me].peers, net.links, net.burned, n);
      var (offered, stored) := StoreAndBroadcast(c, texts, me, b, nodes[me].peers, net.links, net.burned);
      if !stored {
        OwnRowsGo(offered, me, n, m.id, b.hash);
        OwnRowsGo(RemoveAt(offered, me, b.hash), m.to.address, n, m.id, b.hash);
      }
    }
  }

  lemma OwnRowsGo(nodes: Nodes, x: UserHost, n: UserHost, id: string, h: string)
    requires n in nodes && OneHash(nodes[n].messages, id, h)
    ensures var nodes' := RemoveAt(nodes, x, h);
            && nodes'.Keys == nodes.Keys && OneHash(nodes'[n].messages, id, h)
            && (HasMessage(nodes'[n].messages, id) <==> HasMessage(nodes[n].messages, id) && n != x)
  {
    OwnRowGoes(nodes[n].messages, id, h);
  }

  // All rows with this id carry this hash.
  predicate OneHash(rows: seq<MessageRow>, id: string, h: string) {
    forall r | r in rows && r.messageId == id :: r.blockHash == h
  }

  lemma OwnRowGoes(rows: seq<MessageRow>, id: string, h: string)
    requires OneHash(rows, id, h)
    ensures !HasMessage(RemoveByBlockHash(rows, h), id) && OneHash(RemoveByBlockHash(rows, h), id, h)
  {
    var kept := RemoveByBlockHash(rows, h);
    RemoveKeepsOthers(rows, h);
    forall i | 0 <= i < |kept| ensures kept[i].messageId != id { assert kept[i] in kept; }
  }

  lemma InsertHasMessage(rows: seq<MessageRow>, row: MessageRow)
    requires OneHash(rows, row.messageId, row.blockHash)
    ensures HasMessage(InsertMessage(rows, row), row.messageId)
    ensures OneHash(InsertMessage(rows, row), row.messageId, row.blockHash)
  {
    assert !HasMessage(rows, row.messageId) ==> InsertMessage(rows, row)[|rows|] == row;
  }

  lemma RecordedTexts(c: Crypto, nodes: Nodes, me: UserHost, m: TextMessage, handled: bool)
    requires Ready(c, nodes, me, m)
    ensures var texts, to, h := WithTexts(c, nodes, me, m, handled), m.to.address, MakeBlock(c, nodes, me, m).hash;
            && texts.Keys == nodes.Keys
            && HasMessage(texts[me].messages, m.id) && OneHash(texts[me].messages, m.id, h)
            && OneHash(texts[to].messages, m.id, h)
            && (to != me ==> (HasMessage(texts[to].messages, m.id) <==> handled))
  {
    var e, to := SentForm(c, nodes, me, m), m.to.address;
    SerializeRoundTrip(c, m.(blockHash := MakeBlock(c, nodes, me, m).hash), nodes[me].privateKey, nodes[to].privateKey);
    NoSuchRow(nodes[me].messages, m.id, e.blockHash);
    NoSuchRow(nodes[to].messages, m.id, e.blockHash);
    InsertHasMessage(nodes[to].messages, RowOf(e, e.blockHash));
    InsertHasMessage(nodes[me].messages, RowOf(e, e.blockHash));
    InsertHasMessage(InsertMessage(nodes[me].messages, RowOf(e, e.blockHash)), RowOf(e, e.blockHash));
  }

  lemma NoSuchRow(rows: seq<MessageRow>, id: string, h: string)
    requires !HasMessage(rows, id)
    ensures OneHash(rows, id, h)
  {
  }

  // Without knowing what the network will do, the promise can be given exactly to a sender that is not
  // in its own peer list.
  lemma AllOrNothingExactly(c: Crypto, nodes: Nodes, me: UserHost, m: TextMessage, now: UInt64)
    requires Ready(c, nodes, me, m) && Timely(m.timestamp, now)
    requires !NewClash(c, ChainAt(nodes, me), MakeBlock(c, nodes, me, m))
    ensures (forall net | Deliverable(c, nodes, me, m, net) ::
               AllOrNothing(c, nodes, me, m, Send(c, nodes, me, m, net).0, Send(c, nodes, me, m, net).1))
       <==> !Asked(nodes[me].peers, me)
  {
    if !Asked(nodes[me].peers, me) {
      forall net | Deliverable(c, nodes, me, m, net)
        ensures AllOrNothing(c, nodes, me, m, Send(c, nodes, me, m, net).0, Send(c, nodes, me, m, net).1)
      {
        SendIsAllOrNothing(c, nodes, me, m, net);
      }
    } else {
      var f: nat :| f < |nodes[me].peers| && nodes[me].peers[f].address == me;
      var net := Circumstances(true, true, OnlyReaches(|nodes[me].peers|, f, now), true, 0);
      SelfAskedSend(c, nodes, me, m, now, net, f);
    }
  }

  lemma SelfAskedSend(c: Crypto, nodes: Nodes, me: UserHost, m: TextMessage, now: UInt64,
                      net: Circumstances, f: nat)
    requires Ready(c, nodes, me, m) && Timely(m.timestamp, now)
    requires !NewClash(c, ChainAt(nodes, me), MakeBlock(c, nodes, me, m))
    requires f < |nodes[me].peers| && nodes[me].peers[f].address == me
    requires net == Circumstances(true, true, OnlyReaches(|nodes[me].peers|, f, now), true, 0)
    ensures !AllOrNothing(c, nodes, me, m, Send(c, nodes, me, m, net).0, Send(c, nodes, me, m, net).1)
  {
    var b, bs := MakeBlock(c, nodes, me, m), ChainAt(nodes, me);
    NewBlockValid(c, TipHash(bs), m, nodes[me].privateKey);
    FreshOnTip(c, bs, b);
    var texts := WithTexts(c, nodes, me, m, true);
    TextsKeepChains(c, nodes, me, m, true);
    SelfAskedAborts(c, texts, me, b, nodes[me].peers, net.links, now, 0, bs, f);
    var offered := StoreAndBroadcast(c, texts, me, b, nodes[me].peers, net.links, 0).0;
    BroadcastTouches(c, texts, me, b, nodes[me].peers, net.links, 0, m.to.address);
    RemovedAtBoth(offered, me, m.to.address, b.hash);
    assert |bs + [b]| != |bs|;
  }

  // ---------- All or nothing while other threads run ----------

  // The client of a node is busy with b, which is neither in its chain nor in its server's hands.
  ghost predicate Underway(s: P.System, me: UserHost, b: Block) {
    && me in s.nodes && Busy(s, me) && s.nodes[me].client.block == b
    && WellFormed(s.nodes[me].table) && !HasHash(P.ChainOf(s, me), b.hash)
    && (!s.nodes[me].server.Free? ==> s.nodes[me].server.block.hash != b.hash)
  }

  predicate Busy(s: P.System, me: UserHost)
    requires me in s.nodes
  {
    !s.nodes[me].client.Idle?
  }

  // So it is once a block was made on a valid chain, or the block clashes with that chain.
  lemma MadeIsUnderway(c: Crypto, s: P.System, me: UserHost, b: Block)
    requires P.Enabled(c, s, P.Create(me, b)) && WellFormed(s.nodes[me].table) && ValidChain(c, P.ChainOf(s, me))
    requires !s.nodes[me].server.Free? ==> s.nodes[me].server.block.hash != b.hash
    ensures NewClash(c, P.ChainOf(s, me), b) || Underway(P.Apply(c, s, P.Create(me, b)), me, b)
  {
    FreshOnTip(c, P.ChainOf(s, me), b);
  }

  // The node's own server validates no block with this hash.
  predicate KeepsOut(steps: seq<P.Step>, me: UserHost, h: string) {
    forall e | e in steps && e.Validate? && e.n == me :: e.block.hash != h
  }

  // The run ends when the client is done.
  ghost predicate EndsSend(c: Crypto, s: P.System, steps: seq<P.Step>, me: UserHost)
    requires P.Legal(c, s, steps) && me in s.nodes
    decreases |steps|
  {
    if steps == [] then !Busy(s, me)
    else Busy(s, me) && me in P.Apply(c, s, steps[0]).nodes && EndsSend(c, P.Apply(c, s, steps[0]), steps[1..], me)
  }

  predicate CommittedSince(commits: seq<P.Commit>, commits': seq<P.Commit>, me: UserHost, b: Block) {
    exists i | |commits| <= i < |commits'| :: commits'[i].sender == me && commits'[i].block == b
  }

  // One step of anybody: the send goes on, or it ends with the block committed and stored, or with neither.
  lemma UnderwayStep(c: Crypto, s: P.System, e: P.Step, me: UserHost, b: Block)
    requires P.Enabled(c, s, e) && Underway(s, me, b) && KeepsOut([e], me, b.hash)
    ensures var s' := P.Apply(c, s, e);
            && me in s'.nodes && s.commits <= s'.commits
            && (if Busy(s', me) then Underway(s', me, b) && !CommittedSince(s.commits, s'.commits, me, b)
                else if CommittedSince(s.commits, s'.commits, me, b) then b in P.ChainOf(s', me)
                else !HasHash(P.ChainOf(s', me), b.hash))
  {
    var s', node := P.Apply(c, s, e), s.nodes[me];
    P.StepGrows(c, s, e);
    if e.n == me {
      match e
      case InsertOwn(n, burned) =>
        RawAppends(node.table, b, burned);
        assert s'.commits[|s.commits|] == P.Attempt(s, me);
      case InsertIncoming(n, burned) =>
        RawAppends(node.table, node.server.block, burned);
      case Validate(n, y, now) => assert e in [e];
      case _ =>
    }
  }

  lemma {:induction false} UnderwayRun(c: Crypto, s: P.System, steps: seq<P.Step>, me: UserHost, b: Block)
    requires P.Legal(c, s, steps) && Underway(s, me, b) && EndsSend(c, s, steps, me) && KeepsOut(steps, me, b.hash)
    ensures var s' := P.Final(c, s, steps);
            && me in s'.nodes && s.commits <= s'.commits
            && (if CommittedSince(s.commits, s'.commits, me, b) then b in P.ChainOf(s', me)
                else !HasHash(P.ChainOf(s', me), b.hash))
    decreases |steps|
  {
    var s1 := P.Apply(c, s, steps[0]);
    assert KeepsOut([steps[0]], me, b.hash) && KeepsOut(steps[1..], me, b.hash);
    UnderwayStep(c, s, steps[0], me, b);
    if Busy(s1, me) {
      UnderwayRun(c, s1, steps[1..], me, b);
    }
  }

  // A send among any steps of any threads, between the two calls of insertBlock too, and any other
  // traffic in the message tables of both ends: the block is committed and in the sender's chain and in the end
  // the row stands at both ends, or the block is not there and in the end no row mentions it at either.
  // The sender's server must not take the block meanwhile (AllOrNothingExactly), and the notice of an
  // abort must reach the receiver.
  lemma InterleavedSendIsAllOrNothing(c: Crypto, s: P.System, steps: seq<P.Step>, me: UserHost, b: Block, id: string,
                                      sender: Life, receiver: Life)
    requires P.Legal(c, s, steps) && Underway(s, me, b) && EndsSend(c, s, steps, me) && KeepsOut(steps, me, b.hash)
    requires Fresh(sender) && sender.own.messageId == id && sender.own.blockHash == b.hash
    requires Fresh(receiver) && receiver.own.messageId == id && receiver.own.blockHash == b.hash
    ensures var s' := P.Final(c, s, steps);
            var committed := CommittedSince(s.commits, s'.commits, me, b);
            var mine, theirs := RowsInTheEnd(sender, committed), RowsInTheEnd(receiver, committed);
            && me in s'.nodes
            && (if committed
                then b in P.ChainOf(s', me) && Recorded(mine, id, b.hash) && Recorded(theirs, id, b.hash)
                else !HasHash(P.ChainOf(s', me), b.hash)
                     && !MentionsHash(mine, b.hash) && !MentionsHash(theirs, b.hash))
  {
    UnderwayRun(c, s, steps, me, b);
    var committed := CommittedSince(s.commits, P.Final(c, s, steps).commits, me, b);
    RowOrNothing(sender, committed);
    RowOrNothing(receiver, committed);
  }

  // ---------- Committed messages stay valid ----------

  // At either end: once the block of a message is in a node's chain and its row in the node's table,
  // whatever any threads do to chains and tables next, the check of a chat that shows the message lists
  // it exactly when the messages of its block have been removed.
  lemma StoredMessageExactly(c: Crypto, m: TextMessage, tipHash: string, sender: string, receiver: string,
                             s: P.System, n: UserHost, steps: seq<P.Step>,
                             rows: seq<MessageRow>, ops: seq<MessageOp>, chat: seq<TextMessage>)
    requires Lawful(c) && c.paired(sender, m.from.publicKey) && c.paired(receiver, m.to.publicKey)
    requires n in s.nodes && NewBlock(c, tipHash, m, sender) in P.ChainOf(s, n) && P.Legal(c, s, steps)
    requires UniqueIds(rows) && Recorded(rows, m.id, NewBlock(c, tipHash, m, sender).hash)
    requires forall op | op in ops && op.Put? :: op.row.messageId != m.id
    requires forall i | 0 <= i < |chat| && chat[i].id == m.id ::
               chat[i] == m.(blockHash := NewBlock(c, tipHash, m, sender).hash)
    ensures n in P.Final(c, s, steps).nodes
    ensures m.id in InvalidIds(c, ApplyOps(rows, ops), P.ChainOf(P.Final(c, s, steps), n), chat)
       <==> Take(NewBlock(c, tipHash, m, sender).hash) in ops && Shows(chat, m.id)
  {
    P.RunGrows(c, s, steps);
    var b, bs, bs' := NewBlock(c, tipHash, m, sender), P.ChainOf(s, n), P.ChainOf(P.Final(c, s, steps), n);
    var rows' := ApplyOps(rows, ops);
    var i :| 0 <= i < |bs| && bs[i] == b;
    assert bs'[i] == b;
    StandsUntilRemoved(rows, ops, m.id, b.hash);
    if Recorded(rows', m.id, b.hash) { MessageWithBlockIsOk(c, m, tipHash, sender, receiver, rows', bs'); }
    ListedExactly(c, rows', bs', chat, m.id);
  }

  predicate Shows(chat: seq<TextMessage>, id: string) {
    exists i | 0 <= i < |chat| :: chat[i].id == id
  }

  // The row of a message as the table's columns have it, from which the message reads back.
  predicate RowHolds(c: Crypto, r: MessageRow, m: TextMessage, h: string, privateKey: string, inverted: bool) {
    && r.messageId == m.id && r.blockHash == h && r.timestamp == m.timestamp
    && r.toPublicKey == m.to.publicKey && r.fromPublicKey == m.from.publicKey
    && ReadBack(c, r.envelope, privateKey, inverted) == m.(blockHash := h)
  }

  // A committed send leaves its block at the sender and at both ends a row that reads back as the message.
  lemma CommitLeaves(c: Crypto, nodes: Nodes, me: UserHost, m: TextMessage, net: Circumstances, n: UserHost)
    requires Deliverable(c, nodes, me, m, net) && Send(c, nodes, me, m, net).1 == Stored
    requires (n == me || n == m.to.address) && UniqueIds(nodes[n].messages)
    ensures var b, after := MakeBlock(c, nodes, me, m), Send(c, nodes, me, m, net).0;
            && after.Keys == nodes.Keys && b in ChainAt(after, me) && UniqueIds(after[n].messages)
            && exists r | r in after[n].messages :: RowHolds(c, r, m, b.hash, nodes[n].privateKey, n == me)
  {
    var b, texts := MakeBlock(c, nodes, me, m), WithTexts(c, nodes, me, m, true);
    TextsAreAbout(c, nodes, me, m, true, n);
    TextsHold(c, nodes, me, m, n);
    StoredHasBlock(c, texts, me, b, nodes[me].peers, net.links, net.burned);
    BroadcastTouches(c, texts, me, b, nodes[me].peers, net.links, net.burned, n);
  }

  lemma TextsHold(c: Crypto, nodes: Nodes, me: UserHost, m: TextMessage, n: UserHost)
    requires Ready(c, nodes, me, m) && (n == me || n == m.to.address)
    ensures var texts, h := WithTexts(c, nodes, me, m, true), MakeBlock(c, nodes, me, m).hash;
            && n in texts
            && exists r | r in texts[n].messages :: RowHolds(c, r, m, h, nodes[n].privateKey, n == me)
  {
    var e, to := SentForm(c, nodes, me, m), m.to.address;
    SerializeRoundTrip(c, m.(blockHash := MakeBlock(c, nodes, me, m).hash), nodes[me].privateKey, nodes[to].privateKey);
    var row := RowOf(e, e.blockHash);
    assert row in WithTexts(c, nodes, me, m, true)[n].messages;
    assert RowHolds(c, row, m, e.blockHash, nodes[n].privateKey, n == me);
  }

  lemma UniqueRow(rows: seq<MessageRow>, x: MessageRow, y: MessageRow)
    requires UniqueIds(rows) && x in rows && y in rows && x.messageId == y.messageId
    ensures x == y
  {
  }

  // After a committed send: at the sender, and at a receiver that has the block, the message reads back
  // intact from the table, and in every later state of any run it is listed as invalid exactly when the
  // messages of its block have been removed there.
  lemma CommittedMessageExactly(c: Crypto, nodes: Nodes, me: UserHost, m: TextMessage, net: Circumstances,
                                n: UserHost, s: P.System, steps: seq<P.Step>,
                                ops: seq<MessageOp>, chat: seq<TextMessage>)
    requires Deliverable(c, nodes, me, m, net) && Send(c, nodes, me, m, net).1 == Stored
    requires (n == me || n == m.to.address) && UniqueIds(nodes[n].messages) && n in s.nodes && P.Legal(c, s, steps)
    requires n in Send(c, nodes, me, m, net).0 && s.nodes[n].table == Send(c, nodes, me, m, net).0[n].table
    requires n == me || MakeBlock(c, nodes, me, m) in P.ChainOf(s, n)
    requires forall op | op in ops && op.Put? :: op.row.messageId != m.id
    requires forall i | 0 <= i < |chat| && chat[i].id == m.id ::
               exists r | r in Send(c, nodes, me, m, net).0[n].messages && r.messageId == m.id ::
                 chat[i] == ReadBack(c, r.envelope, nodes[n].privateKey, n == me)
    ensures forall i | 0 <= i < |chat| && chat[i].id == m.id ::
              chat[i] == m.(blockHash := MakeBlock(c, nodes, me, m).hash)
    ensures var later := P.Final(c, s, steps);
            && n in later.nodes
            && (m.id in InvalidIds(c, ApplyOps(Send(c, nodes, me, m, net).0[n].messages, ops),
                                   P.ChainOf(later, n), chat)
                <==> Take(MakeBlock(c, nodes, me, m).hash) in ops && Shows(chat, m.id))
  {
    var b, tip, to := MakeBlock(c, nodes, me, m), TipHash(ChainAt(nodes, me)), m.to.address;
    var rows, key := Send(c, nodes, me, m, net).0[n].messages, nodes[n].privateKey;
    CommitLeaves(c, nodes, me, m, net, n);
    var own :| own in rows && RowHolds(c, own, m, b.hash, key, n == me);
    forall i | 0 <= i < |chat| && chat[i].id == m.id ensures chat[i] == m.(blockHash := b.hash) {
      var r :| r in rows && r.messageId == m.id && chat[i] == ReadBack(c, r.envelope, key, n == me);
      UniqueRow(rows, r, own);
    }
    StoredMessageExactly(c, m, tip, nodes[me].privateKey, nodes[to].privateKey, s, n, steps, rows, ops, chat);
  }

  // A receiver stores no text that does not decrypt or whose signature its author's key does not verify.
  lemma TextStoredExactly(c: Crypto, node: Node, e: Envelope)
    requires !HasMessage(node.messages, e.id)
    ensures HasMessage(ReceiveText(c, node, e).messages, e.id) <==>
            exists plain :: && c.decrypt(e.cipher, node.privateKey, e.from.publicKey) == Some(plain)
                            && c.verify(plain, e.signature, e.from.publicKey)
    ensures !HasMessage(ReceiveText(c, node, e).messages, e.id) ==> ReceiveText(c, node, e) == node
  {
    InsertHasMessage(node.messages, RowOf(e, e.blockHash));
  }

  // ---------- Sends one at a time agree ----------

  // Every node lists every other once, and not itself.
  predicate MeshNode(nodes: Nodes, n: UserHost)
    requires n in nodes
  {
    && DistinctAddresses(nodes[n].peers)
    && (forall q | q in nodes && q != n :: Asked(nodes[n].peers, q))
    && (forall i | 0 <= i < |nodes[n].peers| :: nodes[n].peers[i].address in nodes && nodes[n].peers[i].address != n)
  }

  // A full mesh in which every table holds the one valid chain bs.
  ghost predicate Aligned(c: Crypto, nodes: Nodes, bs: seq<Block>) {
    && ValidChain(c, bs) && UniqueHashes(bs)
    && forall n | n in nodes :: MeshNode(nodes, n) && HasChain(nodes, n, bs)
  }

  // One send of a serial run: it connects, every peer answers, the clocks are within five minutes of its timestamp.
  ghost predicate Prompt(c: Crypto, nodes: Nodes, me: UserHost, m: TextMessage, net: Circumstances) {
    && Lawful(c) && me in nodes && c.paired(nodes[me].privateKey, m.from.publicKey)
    && |net.links| == |nodes[me].peers| && net.textSent && Answers(net.links, m.timestamp)
  }

  // Each such send commits and leaves every node with the block.
  lemma SerialSend(c: Crypto, nodes: Nodes, me: UserHost, m: TextMessage, net: Circumstances, bs: seq<Block>)
    requires Aligned(c, nodes, bs) && Prompt(c, nodes, me, m, net)
    requires !NewClash(c, bs, MakeBlock(c, nodes, me, m))
    ensures var (nodes', outcome) := Send(c, nodes, me, m, net);
            outcome == Stored && Aligned(c, nodes', bs + [MakeBlock(c, nodes, me, m)])
  {
    var b, peers := MakeBlock(c, nodes, me, m), nodes[me].peers;
    assert MeshNode(nodes, me) && HasChain(nodes, me, bs);
    NewBlockValid(c, TipHash(bs), m, nodes[me].privateKey);
    FreshOnTip(c, bs, b);
    ValidAppend(c, bs, b);
    UniqueAppend(bs, b);
    var texts := WithTexts(c, nodes, me, m, net.textHandled);
    TextsKeepChains(c, nodes, me, m, net.textHandled);
    forall i | 0 <= i < |peers| ensures peers[i].address in texts && HasChain(texts, peers[i].address, bs) {
      assert HasChain(nodes, peers[i].address, bs);
    }
    assert HasChain(texts, me, bs);
    BroadcastReachesAll(c, texts, me, b, peers, net.links, net.burned, bs);
    var nodes' := Send(c, nodes, me, m, net).0;
    forall n | n in nodes' ensures MeshNode(nodes', n) && HasChain(nodes', n, bs + [b]) {
      BroadcastTouches(c, texts, me, b, peers, net.links, net.burned, n);
      assert MeshNode(nodes, n);
      assert n == me || Asked(peers, n);
      SameMesh(nodes, nodes', n);
    }
  }

  lemma SameMesh(nodes: Nodes, nodes': Nodes, n: UserHost)
    requires n in nodes && nodes'.Keys == nodes.Keys && nodes'[n].peers == nodes[n].peers && MeshNode(nodes, n)
    ensures MeshNode(nodes', n)
  {
  }

  datatype Job = Job(sender: UserHost, message: TextMessage, net: Circumstances)

  // Jobs done one at a time, each prompt in the state it finds.
  ghost predicate Serial(c: Crypto, nodes: Nodes, jobs: seq<Job>)
    decreases |jobs|
  {
    jobs != [] ==>
      && Prompt(c, nodes, jobs[0].sender, jobs[0].message, jobs[0].net)
      && Serial(c, Send(c, nodes, jobs[0].sender, jobs[0].message, jobs[0].net).0, jobs[1..])
  }

  ghost function After(c: Crypto, nodes: Nodes, jobs: seq<Job>): Nodes
    requires Serial(c, nodes, jobs)
    decreases |jobs|
  {
    if jobs == [] then nodes
    else After(c, Send(c, nodes, jobs[0].sender, jobs[0].message, jobs[0].net).0, jobs[1..])
  }

  ghost predicate AllStored(c: Crypto, nodes: Nodes, jobs: seq<Job>)
    requires Serial(c, nodes, jobs)
    decreases |jobs|
  {
    jobs != [] ==>
      var (nodes', outcome) := Send(c, nodes, jobs[0].sender, jobs[0].message, jobs[0].net);
      outcome == Stored && AllStored(c, nodes', jobs[1..])
  }

  // Some block made on the way clashes with the chain it was made for.
  ghost predicate JobClash(c: Crypto, nodes: Nodes, jobs: seq<Job>)
    requires Serial(c, nodes, jobs)
    decreases |jobs|
  {
    jobs != [] &&
    (|| NewClash(c, ChainAt(nodes, jobs[0].sender), MakeBlock(c, nodes, jobs[0].sender, jobs[0].message))
     || JobClash(c, Send(c, nodes, jobs[0].sender, jobs[0].message, jobs[0].net).0, jobs[1..]))
  }

  // In a full mesh of answering nodes with equal chains, possibly empty, every send of a serial run
  // commits, and all chains stay identical and valid and grow by one block a send; or a made block clashes.
  lemma {:induction false} SerialAgreement(c: Crypto, nodes: Nodes, jobs: seq<Job>, bs: seq<Block>)
    returns (bs': seq<Block>)
    requires Aligned(c, nodes, bs) && Serial(c, nodes, jobs)
    ensures JobClash(c, nodes, jobs) ||
            (&& AllStored(c, nodes, jobs) && Aligned(c, After(c, nodes, jobs), bs')
             && bs <= bs' && |bs'| == |bs| + |jobs|)
    decreases |jobs|
  {
    if jobs == [] {
      bs' := bs;
    } else {
      var me, m, net := jobs[0].sender, jobs[0].message, jobs[0].net;
      var b := MakeBlock(c, nodes, me, m);
      assert HasChain(nodes, me, bs);
      if NewClash(c, bs, b) {
        bs' := bs;
      } else {
        SerialSend(c, nodes, me, m, net, bs);
        bs' := SerialAgreement(c, Send(c, nodes, me, m, net).0, jobs[1..], bs + [b]);
      }
    }
  }

  // ---------- The client ----------

  class Cluster {
    const crypto: Crypto
    var nodes: Nodes

    constructor (crypto: Crypto, nodes: Nodes)
      ensures this.crypto == crypto && this.nodes == nodes
    {
      this.crypto, this.nodes := crypto, nodes;
    }

    // sendCallback, with what the peer's server does in it.
    method OfferBlock(b: Block, peer: UserHost, link: Link, burned: nat) returns (ok: bool)
      modifies this
      ensures (nodes, ok) == Offer(crypto, old(nodes), b, peer, link, burned)
      ensures nodes.Keys == old(nodes).Keys && forall n | n in nodes && n != peer :: nodes[n] == old(nodes)[n]
      ensures peer in nodes ==>
                var reached := link.Up? || link.Mute?;
                var taken := reached && IncomingAccepts(crypto, ChainAt(old(nodes), peer), b, link.now);
                && nodes[peer] == old(nodes)[peer].(table := if taken then Insert(old(nodes)[peer].table, b, burned).0
                                                             else old(nodes)[peer].table)
                && (ok <==> link.Down? || (link.Up? && taken))
      ensures peer !in nodes ==> ok
    {
      if link.Down? || peer !in nodes { return true; }
      if link.Lost? { return false; }
      var (node, accepted) := Receive(crypto, nodes[peer], b, link.now, burned);
      nodes := nodes[peer := node];
      return accepted && link.Up?;
    }

    method StoreAndBroadcastBlock(me: UserHost, b: Block, peers: seq<UserPeer>, links: seq<Link>, burned: nat)
      returns (stored: bool)
      requires me in nodes && |links| == |peers|
      modifies this
      ensures (nodes, stored) == StoreAndBroadcast(crypto, old(nodes), me, b, peers, links, burned)
      ensures me in nodes && (stored ==> b in ChainAt(nodes, me))
    {
      StoredHasBlock(crypto, nodes, me, b, peers, links, burned);
      for i := 0 to |peers|
        invariant me in nodes
        invariant StoreAndBroadcast(crypto, nodes, me, b, peers[i..], links[i..], burned)
               == StoreAndBroadcast(crypto, old(nodes), me, b, peers, links, burned)
      {
        OfferTouches(crypto, nodes, b, peers[i].address, links[i], burned, me);
        assert peers[i..][1..] == peers[i + 1..] && links[i..][1..] == links[i + 1..];
        var ok := OfferBlock(b, peers[i].address, links[i], burned);
        if !ok { return false; }
      }
      var (t, ok) := Insert(nodes[me].table, b, burned);
      nodes := nodes[me := nodes[me].(table := t)];
      return ok;
    }

    method SendSecretMessage(me: UserHost, m: TextMessage, net: Circumstances) returns (outcome: Outcome)
      requires me in nodes && |net.links| == |nodes[me].peers|
      modifies this
      ensures (nodes, outcome) == Send(crypto, old(nodes), me, m, net)
      ensures Deliverable(crypto, old(nodes), me, m, net) && !Asked(old(nodes)[me].peers, me) ==>
                AllOrNothing(crypto, old(nodes), me, m, nodes, outcome)
      ensures nodes.Keys == old(nodes).Keys
      ensures forall n | n in nodes ::
                Touched(old(nodes), nodes, me, m, MakeBlock(crypto, old(nodes), me, m).hash, n)
      ensures outcome != Aborted ==> forall n | n in nodes :: old(nodes)[n].messages <= nodes[n].messages
    {
      SendTouches(crypto, nodes, me, m, net);
      if Deliverable(crypto, nodes, me, m, net) && !Asked(nodes[me].peers, me) {
        SendIsAllOrNothing(crypto, nodes, me, m, net);
      }
      if !net.textSent {
        outcome := NotSent;
      } else {
        var b := NewBlock(crypto, TipHash(Contents(nodes[me].table)), m, nodes[me].privateKey);
        var e := Serialize(crypto, m.(blockHash := b.hash), nodes[me].privateKey);
        var to, peers := m.to.address, nodes[me].peers;
        if net.textHandled && to in nodes {
          nodes := nodes[to := ReceiveText(crypto, nodes[to], e)];
        }
        nodes := nodes[me := nodes[me].(messages := InsertMessage(nodes[me].messages, RowOf(e, e.blockHash)))];
        assert nodes == WithTexts(crypto, old(nodes), me, m, net.textHandled);
        var stored := StoreAndBroadcastBlock(me, b, peers, net.links, net.burned);
        if stored {
          outcome := Stored;
        } else {
          nodes := RemoveAt(nodes, me, b.hash);
          if net.noticeArrives {
            nodes := RemoveAt(nodes, to, b.hash);
          }
          outcome := Aborted;
        }
      }
      assert (nodes, outcome) == Send(crypto, old(nodes), me, m, net);
    }
  }
}
