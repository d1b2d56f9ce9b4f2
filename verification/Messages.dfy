/**
 The `messages` table and the check of a chat against the chain (src/infra/message/MessageDB.cpp,
 src/domain/message/MessageService.cpp).
 */
module Messages {
  import opened Blocks
  import opened Chain
  import opened ChainDB
  import opened TextMessages
  import opened BlockchainService

  datatype MessageRow = MessageRow(
    messageId: string,
    toPublicKey: string,
    fromPublicKey: string,
    timestamp: UInt64,
    envelope: Envelope,
    blockHash: string
  )

  function RowOf(m: Envelope, blockHash: string): MessageRow {
    MessageRow(m.id, m.to.publicKey, m.from.publicKey, m.timestamp, m, blockHash)
  }

  predicate HasMessage(rows: seq<MessageRow>, id: string) {
    exists i | 0 <= i < |rows| :: rows[i].messageId == id
  }

  predicate UniqueIds(rows: seq<MessageRow>) {
    forall i, j | 0 <= i < j < |rows| :: rows[i].messageId != rows[j].messageId
  }

  // insertSecretMessage: message_id is UNIQUE.
  function InsertMessage(rows: seq<MessageRow>, row: MessageRow): seq<MessageRow> {
    if HasMessage(rows, row.messageId) then rows else rows + [row]
  }

  // DELETE ... WHERE block_hash = ?
  function RemoveByBlockHash(rows: seq<MessageRow>, blockHash: string): seq<MessageRow> {
    if rows == [] then []
    else (if rows[0].blockHash == blockHash then [] else [rows[0]]) + RemoveByBlockHash(rows[1..], blockHash)
  }

  // The row of a message stands with this block hash.
  predicate Recorded(rows: seq<MessageRow>, id: string, blockHash: string) {
    exists i | 0 <= i < |rows| :: rows[i].messageId == id && rows[i].blockHash == blockHash
  }

  predicate MentionsHash(rows: seq<MessageRow>, blockHash: string) {
    exists i | 0 <= i < |rows| :: rows[i].blockHash == blockHash
  }

  lemma {:induction false} RemoveMembers(rows: seq<MessageRow>, blockHash: string)
    ensures forall r :: r in RemoveByBlockHash(rows, blockHash) <==> r in rows && r.blockHash != blockHash
  {
    if rows != [] {
      RemoveMembers(rows[1..], blockHash);
      assert rows == [rows[0]] + rows[1..];
    }
  }

  lemma {:induction false} RemoveUnique(rows: seq<MessageRow>, blockHash: string)
    requires UniqueIds(rows)
    ensures UniqueIds(RemoveByBlockHash(rows, blockHash))
  {
    if rows != [] {
      var rest := RemoveByBlockHash(rows[1..], blockHash);
      RemoveUnique(rows[1..], blockHash);
      RemoveMembers(rows[1..], blockHash);
      forall k | 0 <= k < |rest| ensures rest[k].messageId != rows[0].messageId {
        assert rest[k] in rows[1..];
      }
    }
  }

  // Deleting by block hash keeps exactly the rows of other blocks.
  lemma RemoveKeepsOthers(rows: seq<MessageRow>, blockHash: string)
    ensures !MentionsHash(RemoveByBlockHash(rows, blockHash), blockHash)
    ensures forall r :: r in RemoveByBlockHash(rows, blockHash) <==> r in rows && r.blockHash != blockHash
    ensures UniqueIds(rows) ==> UniqueIds(RemoveByBlockHash(rows, blockHash))
  {
    var kept := RemoveByBlockHash(rows, blockHash);
    RemoveMembers(rows, blockHash);
    forall i | 0 <= i < |kept| ensures kept[i].blockHash != blockHash {
      assert kept[i] in kept;
    }
    if UniqueIds(rows) { RemoveUnique(rows, blockHash); }
  }

  // What the threads of a node do to the table: store a message, remove the messages of a block.
  datatype MessageOp = Put(row: MessageRow) | Take(blockHash: string)

  function ApplyOp(rows: seq<MessageRow>, op: MessageOp): seq<MessageRow> {
    match op
    case Put(row) => InsertMessage(rows, row)
    case Take(blockHash) => RemoveByBlockHash(rows, blockHash)
  }

  function ApplyOps(rows: seq<MessageRow>, ops: seq<MessageOp>): seq<MessageRow>
    decreases |ops|
  {
    if ops == [] then rows else ApplyOps(ApplyOp(rows, ops[0]), ops[1..])
  }

  // A message row outlives every other message's insert and every removal for another block.
  lemma RecordStays(rows: seq<MessageRow>, id: string, blockHash: string, op: MessageOp)
    requires UniqueIds(rows) && Recorded(rows, id, blockHash) && op != Take(blockHash)
    ensures UniqueIds(ApplyOp(rows, op)) && Recorded(ApplyOp(rows, op), id, blockHash)
  {
    var i :| 0 <= i < |rows| && rows[i].messageId == id && rows[i].blockHash == blockHash;
    if op.Put? {
      assert InsertMessage(rows, op.row)[i] == rows[i];
    } else {
      RemoveKeepsOthers(rows, op.blockHash);
      assert rows[i] in rows && rows[i] in RemoveByBlockHash(rows, op.blockHash);
    }
  }

  // Once its row is gone a message is unknown until a row with its id is stored.
  lemma {:induction false} GoneStaysGone(rows: seq<MessageRow>, ops: seq<MessageOp>, id: string)
    requires !HasMessage(rows, id) && forall op | op in ops && op.Put? :: op.row.messageId != id
    ensures !HasMessage(ApplyOps(rows, ops), id)
    decreases |ops|
  {
    if ops != [] {
      var rows' := ApplyOp(rows, ops[0]);
      assert ops[0] in ops;
      if ops[0].Take? { RemoveMembers(rows, ops[0].blockHash); }
      forall i | 0 <= i < |rows'| ensures rows'[i].messageId != id {
        assert rows'[i] in rows';
      }
      GoneStaysGone(rows', ops[1..], id);
    }
  }

  lemma RemovalRemoves(rows: seq<MessageRow>, id: string, blockHash: string)
    requires UniqueIds(rows) && Recorded(rows, id, blockHash)
    ensures !HasMessage(RemoveByBlockHash(rows, blockHash), id)
  {
    var kept := RemoveByBlockHash(rows, blockHash);
    RemoveMembers(rows, blockHash);
    forall i | 0 <= i < |kept| ensures kept[i].messageId != id {
      assert kept[i] in kept;
      assert kept[i] in rows;
    }
  }

  // Whatever else is stored and removed, a message's row stands exactly until the messages of its block
  // are removed, its id being its own.
  lemma {:induction false} StandsUntilRemoved(rows: seq<MessageRow>, ops: seq<MessageOp>, id: string, blockHash: string)
    requires UniqueIds(rows) && Recorded(rows, id, blockHash)
    requires forall op | op in ops && op.Put? :: op.row.messageId != id
    ensures Recorded(ApplyOps(rows, ops), id, blockHash) <==> Take(blockHash) !in ops
    decreases |ops|
  {
    if ops != [] {
      assert ops[0] in ops && ops == [ops[0]] + ops[1..];
      if ops[0] == Take(blockHash) {
        RemovalRemoves(rows, id, blockHash);
        GoneStaysGone(ApplyOp(rows, ops[0]), ops[1..], id);
      } else {
        RecordStays(rows, id, blockHash, ops[0]);
        StandsUntilRemoved(ApplyOp(rows, ops[0]), ops[1..], id, blockHash);
      }
    }
  }

  lemma {:induction false} OpsKeepUnique(rows: seq<MessageRow>, ops: seq<MessageOp>)
    requires UniqueIds(rows)
    ensures UniqueIds(ApplyOps(rows, ops))
    decreases |ops|
  {
    if ops != [] {
      if ops[0].Take? { RemoveKeepsOthers(rows, ops[0].blockHash); }
      OpsKeepUnique(ApplyOp(rows, ops[0]), ops[1..]);
    }
  }

  // ---------- The life of one message in one table ----------

  // Everything one table sees while a message is sent: other messages' traffic before its own row is
  // stored, while the block is offered, and after that.
  datatype Life = Life(
    rows: seq<MessageRow>,
    before: seq<MessageOp>,
    own: MessageRow,
    during: seq<MessageOp>,
    after: seq<MessageOp>
  )

  // Of other messages and blocks.
  predicate Elsewhere(ops: seq<MessageOp>, id: string, blockHash: string) {
    forall op | op in ops :: OpElsewhere(op, id, blockHash)
  }

  predicate OpElsewhere(op: MessageOp, id: string, blockHash: string) {
    match op
    case Put(row) => row.messageId != id && row.blockHash != blockHash
    case Take(other) => other != blockHash
  }

  // A new message and a new block, which nothing else in the table is about.
  predicate Fresh(life: Life) {
    var id, h := life.own.messageId, life.own.blockHash;
    && UniqueIds(life.rows) && !HasMessage(life.rows, id) && !MentionsHash(life.rows, h)
    && Elsewhere(life.before, id, h) && Elsewhere(life.during, id, h) && Elsewhere(life.after, id, h)
  }

  // The table in the end: a send that does not commit removes the messages of its block.
  function RowsInTheEnd(life: Life, committed: bool): seq<MessageRow> {
    var held := ApplyOps(InsertMessage(ApplyOps(life.rows, life.before), life.own), life.during);
    ApplyOps(if committed then held else RemoveByBlockHash(held, life.own.blockHash), life.after)
  }

  lemma {:induction false} StaysClean(rows: seq<MessageRow>, ops: seq<MessageOp>, id: string, blockHash: string)
    requires !MentionsHash(rows, blockHash) && Elsewhere(ops, id, blockHash)
    ensures !MentionsHash(ApplyOps(rows, ops), blockHash)
    decreases |ops|
  {
    if ops != [] {
      var rows' := ApplyOp(rows, ops[0]);
      assert ops[0] in ops;
      if ops[0].Take? { RemoveMembers(rows, ops[0].blockHash); }
      forall i | 0 <= i < |rows'| ensures rows'[i].blockHash != blockHash {
        assert rows'[i] in rows';
      }
      assert forall op | op in ops[1..] :: op in ops;
      StaysClean(rows', ops[1..], id, blockHash);
    }
  }

  // In the end the row stands, or no row mentions the block.
  lemma RowOrNothing(life: Life, committed: bool)
    requires Fresh(life)
    ensures if committed then Recorded(RowsInTheEnd(life, committed), life.own.messageId, life.own.blockHash)
            else !MentionsHash(RowsInTheEnd(life, committed), life.own.blockHash)
  {
    var id, h := life.own.messageId, life.own.blockHash;
    assert OpElsewhere(Take(h), id, h) == false;
    var early := ApplyOps(life.rows, life.before);
    OpsKeepUnique(life.rows, life.before);
    GoneStaysGone(life.rows, life.before, id);
    var stored := InsertMessage(early, life.own);
    assert stored[|early|] == life.own;
    OpsKeepUnique(stored, life.during);
    StandsUntilRemoved(stored, life.during, id, h);
    var held := ApplyOps(stored, life.during);
    if committed {
      StandsUntilRemoved(held, life.after, id, h);
    } else {
      RemoveKeepsOthers(held, h);
      StaysClean(RemoveByBlockHash(held, h), life.after, id, h);
    }
  }

  // ---------- Reading a chat back ----------

  const CRASHED := "CRASHED MESSAGE"

  // findChatMessages keeps a message whose cipher or signature is rejected, with a fixed text.
  function ReadBack(c: Crypto, e: Envelope, privateKey: string, inverted: bool): TextMessage {
    match Deserialize(c, e, privateKey, inverted)
    case Some(m) => m
    case None => TextMessage(e.id, e.from, e.to, e.timestamp, CRASHED, e.blockHash)
  }

  // It reads back as sent exactly when cipher and signature hold, and otherwise shows as crashed.
  lemma ReadBackExactly(c: Crypto, e: Envelope, privateKey: string, inverted: bool)
    ensures var m := ReadBack(c, e, privateKey, inverted);
            && m.id == e.id && m.from == e.from && m.to == e.to
            && m.timestamp == e.timestamp && m.blockHash == e.blockHash
            && var plain := c.decrypt(e.cipher, privateKey, if inverted then e.to.publicKey else e.from.publicKey);
               if plain.Some? && c.verify(plain.value, e.signature, e.from.publicKey)
               then m.text == plain.value else m.text == "CRASHED MESSAGE"
  {
  }

  // What findInvalidChatMessageIDs demands of a message it does not list.
  predicate MessageOk(c: Crypto, rows: seq<MessageRow>, bs: seq<Block>, m: TextMessage) {
    && m.blockHash != ""
    && Recorded(rows, m.id, m.blockHash)
    && exists b | b in bs :: b.hash == m.blockHash && BlockMatchesMessage(c, b, m)
  }

  function InvalidIds(c: Crypto, rows: seq<MessageRow>, bs: seq<Block>, ms: seq<TextMessage>): seq<string> {
    if ms == [] then []
    else (if MessageOk(c, rows, bs, ms[0]) then [] else [ms[0].id]) + InvalidIds(c, rows, bs, ms[1..])
  }

  lemma {:induction false} InvalidIdsAppend(c: Crypto, rows: seq<MessageRow>, bs: seq<Block>,
                                            ms: seq<TextMessage>, m: TextMessage)
    ensures InvalidIds(c, rows, bs, ms + [m])
         == InvalidIds(c, rows, bs, ms) + if MessageOk(c, rows, bs, m) then [] else [m.id]
  {
    if ms == [] {
      assert ms + [m] == [m];
    } else {
      assert (ms + [m])[1..] == ms[1..] + [m];
      InvalidIdsAppend(c, rows, bs, ms[1..], m);
    }
  }

  // An id is listed exactly when some message with that id fails.
  lemma {:induction false} ListedExactly(c: Crypto, rows: seq<MessageRow>, bs: seq<Block>,
                                         ms: seq<TextMessage>, id: string)
    ensures id in InvalidIds(c, rows, bs, ms) <==>
            exists i | 0 <= i < |ms| :: ms[i].id == id && !MessageOk(c, rows, bs, ms[i])
  {
    if ms != [] {
      ListedExactly(c, rows, bs, ms[1..], id);
      var tl := ms[1..];
      assert forall i | 0 <= i < |tl| :: tl[i] == ms[i + 1];
      assert forall i | 0 < i < |ms| :: ms[i] == tl[i - 1];
    }
  }

  // In the check's own terms: no block hash, no row with it, or no block in the chain that has it and matches.
  lemma InvalidExactly(c: Crypto, rows: seq<MessageRow>, bs: seq<Block>, ms: seq<TextMessage>, id: string)
    ensures id in InvalidIds(c, rows, bs, ms) <==>
            exists i | 0 <= i < |ms| :: ms[i].id == id &&
              (|| |ms[i].blockHash| == 0
               || (forall r | r in rows :: r.messageId != id || r.blockHash != ms[i].blockHash)
               || (forall b | b in bs :: b.hash != ms[i].blockHash || !BlockMatchesMessage(c, b, ms[i])))
  {
    ListedExactly(c, rows, bs, ms, id);
    forall i | 0 <= i < |ms| && ms[i].id == id
      ensures Recorded(rows, id, ms[i].blockHash) <==>
              exists r | r in rows :: r.messageId == id && r.blockHash == ms[i].blockHash
    {
    }
  }

  // A message that claims the block made for m passes exactly when it has its author, its time and, up to
  // the first NUL, a text with its text's digest: whatever else was put in place of m is listed.
  lemma ForgeryIsListed(c: Crypto, m: TextMessage, tipHash: string, privateKey: string, other: TextMessage,
                        rows: seq<MessageRow>, bs: seq<Block>, i: nat, j: nat)
    requires Lawful(c) && c.paired(privateKey, m.from.publicKey) && CutAt(m.text, i) && CutAt(other.text, j)
    requires var b := NewBlock(c, tipHash, m, privateKey);
             b in bs && UniqueHashes(bs) && Recorded(rows, m.id, b.hash) && other.blockHash == b.hash
    requires other.id == m.id
    ensures m.id !in InvalidIds(c, rows, bs, [other]) <==>
            && other.from.publicKey == m.from.publicKey && other.timestamp == m.timestamp
            && c.digest(other.text[..j]) == c.digest(m.text[..i])
  {
    var b := NewBlock(c, tipHash, m, privateKey);
    BlockProtectsMessage(c, tipHash, m, privateKey, other, i, j);
    Sha256Shape(c, Canonical(b));
    OnlyHolder(bs, b);
    ListedExactly(c, rows, bs, [other], m.id);
    assert b.hash != "";
  }

  lemma OnlyHolder(bs: seq<Block>, b: Block)
    requires UniqueHashes(bs) && b in bs
    ensures forall x | x in bs && x.hash == b.hash :: x == b
  {
  }

  class MessageStore {
    var rows: seq<MessageRow>

    constructor ()
      ensures rows == []
    {
      rows := [];
    }

    method InsertSecretMessage(e: Envelope, blockHash: string) returns (ok: bool)
      modifies this
      ensures rows == InsertMessage(old(rows), RowOf(e, blockHash))
      ensures ok <==> !HasMessage(old(rows), e.id)
      ensures old(UniqueIds(rows)) ==> UniqueIds(rows)
    {
      for i := 0 to |rows|
        invariant rows == old(rows) && forall k | 0 <= k < i :: rows[k].messageId != e.id
      {
        if rows[i].messageId == e.id { return false; }
      }
      rows := rows + [RowOf(e, blockHash)];
      return true;
    }

    method FindBlockHashByMessageId(messageId: string) returns (found: bool, blockHash: string)
      ensures found <==> HasMessage(rows, messageId)
      ensures found ==> Recorded(rows, messageId, blockHash)
      ensures !found ==> blockHash == ""
    {
      for i := 0 to |rows|
        invariant forall k | 0 <= k < i :: rows[k].messageId != messageId
      {
        if rows[i].messageId == messageId { return true, rows[i].blockHash; }
      }
      return false, "";
    }

    // The DELETE by block hash reports success even when it deletes nothing, so the removal by
    // message id behind it never happens.
    method RemoveMessageByBlockHashOrId(blockHash: string, messageId: string) returns (removed: bool)
      modifies this
      ensures removed && rows == RemoveByBlockHash(old(rows), blockHash)
    {
      var kept: seq<MessageRow> := [];
      for i := 0 to |rows|
        invariant rows == old(rows)
        invariant kept + RemoveByBlockHash(rows[i..], blockHash) == RemoveByBlockHash(rows, blockHash)
      {
        assert rows[i..][1..] == rows[i + 1..];
        if rows[i].blockHash != blockHash { kept := kept + [rows[i]]; }
      }
      rows := kept;
      return true;
    }
  }

  // The hash column is UNIQUE, so the block found by hash is the only one.
  method FindInvalidChatMessageIDs(store: MessageStore, service: Service, messages: seq<TextMessage>)
    returns (invalidIds: seq<string>)
    requires UniqueIds(store.rows) && WellFormed(service.repo.Value())
    ensures invalidIds == InvalidIds(service.crypto, store.rows, service.LocalChain(), messages)
  {
    invalidIds := [];
    for i := 0 to |messages|
      invariant invalidIds == InvalidIds(service.crypto, store.rows, service.LocalChain(), messages[..i])
    {
      var m := messages[i];
      assert messages[..i + 1] == messages[..i] + [m];
      InvalidIdsAppend(service.crypto, store.rows, service.LocalChain(), messages[..i], m);
      var ok := CheckMessage(store, service, m);
      if !ok { invalidIds := invalidIds + [m.id]; }
    }
    assert messages[..|messages|] == messages;
  }

  // One round of the loop of findInvalidChatMessageIDs.
  method CheckMessage(store: MessageStore, service: Service, m: TextMessage) returns (ok: bool)
    requires UniqueIds(store.rows) && WellFormed(service.repo.Value())
    ensures ok <==> MessageOk(service.crypto, store.rows, service.LocalChain(), m)
  {
    var found, blockHash := store.FindBlockHashByMessageId(m.id);
    if !found || blockHash == "" || blockHash != m.blockHash {
      return false;
    }
    var known, block := service.repo.FindBlockByHash(blockHash);
    if !known {
      assert forall b | b in service.LocalChain() :: b.hash != blockHash;
      return false;
    }
    ok := service.CompareBlockWithMessage(block, m);
    assert forall b | b in service.LocalChain() && b.hash == blockHash :: b == block;
  }

  // ---------- Committed messages ----------

  // With matching keys, a message whose block is in the chain and whose row still stands is read back
  // intact at both ends and passes the check there.
  lemma MessageWithBlockIsOk(c: Crypto, m: TextMessage, tipHash: string, sender: string, receiver: string,
                             rows: seq<MessageRow>, bs: seq<Block>)
    requires Lawful(c) && c.paired(sender, m.from.publicKey) && c.paired(receiver, m.to.publicKey)
    requires var b := NewBlock(c, tipHash, m, sender); b in bs && Recorded(rows, m.id, b.hash)
    ensures var sent := m.(blockHash := NewBlock(c, tipHash, m, sender).hash);
            var e := Serialize(c, sent, sender);
            && ReadBack(c, e, sender, true) == sent && ReadBack(c, e, receiver, false) == sent
            && MessageOk(c, rows, bs, sent)
  {
    var b := NewBlock(c, tipHash, m, sender);
    NewBlockValid(c, tipHash, m, sender);
    SerializeRoundTrip(c, m.(blockHash := b.hash), sender, receiver);
    Sha256Shape(c, Canonical(b));
  }
}
