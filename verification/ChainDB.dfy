/**
 The `blocks` table (src/infra/blockchain/ChainDB.cpp): rows with an AUTOINCREMENT id and a UNIQUE
 hash, kept in id order. `Table` is its value; class `Repo` is the repository over it.
 */
module ChainDB {
  import opened Hex
  import opened Blocks
  import opened Chain

  datatype Row = Row(id: nat, block: Block)

  // lastId is the AUTOINCREMENT counter of the engine.
  datatype Table = Table(rows: seq<Row>, lastId: nat)

  const EMPTY := Table([], 0)

  function BlocksOf(rows: seq<Row>): seq<Block> {
    seq(|rows|, i requires 0 <= i < |rows| => rows[i].block)
  }

  // loadAllBlocks: the plain list behind every query.
  function Contents(t: Table): seq<Block> {
    BlocksOf(t.rows)
  }

  // Ids grow along the table and the hash column is UNIQUE.
  predicate WellFormed(t: Table) {
    && (forall i, j | 0 <= i < j < |t.rows| :: t.rows[i].id < t.rows[j].id)
    && (forall i | 0 <= i < |t.rows| :: t.rows[i].id <= t.lastId)
    && UniqueHashes(Contents(t))
  }

  // Ids without gaps.
  predicate Consecutive(t: Table) {
    && (forall i | 0 <= i < |t.rows| :: t.rows[i].id == i + 1)
    && t.lastId == |t.rows|
  }

  // The check insertBlock makes itself: a parent other than "0" may have one child only.
  predicate ChildRefused(t: Table, b: Block) {
    b.previousHash != NO_HASH && HasChild(Contents(t), b.previousHash)
  }

  function Appended(t: Table, b: Block): Table {
    Table(t.rows + [Row(t.lastId + 1, b)], t.lastId + 1)
  }

  // The INSERT. `burned` is how many ids the engine consumes when it rejects a row, which is its own business.
  function RawInsert(t: Table, b: Block, burned: nat): (r: (Table, bool)) {
    if HasHash(Contents(t), b.hash) then (t.(lastId := t.lastId + burned), false) else (Appended(t, b), true)
  }

  // insertBlock, undisturbed between its two calls.
  function Insert(t: Table, b: Block, burned: nat): (r: (Table, bool)) {
    if ChildRefused(t, b) then (t, false) else RawInsert(t, b, burned)
  }

  lemma ContentsAppended(t: Table, b: Block)
    ensures Contents(Appended(t, b)) == Contents(t) + [b]
  {
  }

  // The INSERT appends its block or leaves the list alone, and the table stays well-formed.
  lemma RawAppends(t: Table, b: Block, burned: nat)
    requires WellFormed(t)
    ensures var (t', ok) := RawInsert(t, b, burned);
            && WellFormed(t') && Contents(t') == (if ok then Contents(t) + [b] else Contents(t))
            && (ok <==> !HasHash(Contents(t), b.hash))
  {
    ContentsAppended(t, b);
    if !HasHash(Contents(t), b.hash) { UniqueAppend(Contents(t), b); }
  }

  // So does insertBlock.
  lemma InsertAppends(t: Table, b: Block, burned: nat)
    requires WellFormed(t)
    ensures WellFormed(Insert(t, b, burned).0)
    ensures var (t', ok) := Insert(t, b, burned);
            Contents(t') == if ok then Contents(t) + [b] else Contents(t)
    ensures Insert(t, b, burned).1 <==> !ChildRefused(t, b) && !HasHash(Contents(t), b.hash)
  {
    RawAppends(t, b, burned);
  }

  // ---------- Queries as the SQL states them ----------

  // SELECT ... WHERE id >= lo ORDER BY id LIMIT n
  function SelectFrom(rows: seq<Row>, lo: nat, n: nat): seq<Block> {
    if rows == [] || n == 0 then []
    else if rows[0].id >= lo then [rows[0].block] + SelectFrom(rows[1..], lo, n - 1)
    else SelectFrom(rows[1..], lo, n)
  }

  // SELECT COUNT(*) ... WHERE id > bound
  function CountAbove(rows: seq<Row>, bound: nat): nat {
    if rows == [] then 0
    else (if rows[0].id > bound then 1 else 0) + CountAbove(rows[1..], bound)
  }

  // SELECT id ... WHERE hash = ? LIMIT 1
  function IdOfHash(rows: seq<Row>, h: string): Option<nat> {
    if rows == [] then None
    else if rows[0].block.hash == h then Some(rows[0].id)
    else IdOfHash(rows[1..], h)
  }

  function U32(n: nat): UInt32 {
    n % 0x1_0000_0000
  }

  function Min(a: nat, b: nat): nat {
    if a < b then a else b
  }

  function Slice(bs: seq<Block>, from: nat, n: nat): seq<Block> {
    bs[Min(from, |bs|)..Min(from + n, |bs|)]
  }

  // getBlocksByIndexRange
  function BlockRange(t: Table, start: UInt32, count: UInt32, lastHash: string): seq<Block> {
    if lastHash == NO_HASH then Slice(Contents(t), start, count)
    else match IdOfHash(t.rows, lastHash)
      case None => []
      case Some(id) => SelectFrom(t.rows, id + 1 + start, count)
  }

  // countBlocksAfterHash: the id and the count are both cut to 32 bits; an unknown hash counts the whole table.
  function MissingAfter(t: Table, h: string): UInt32 {
    if h == NO_HASH then U32(|t.rows|)
    else match IdOfHash(t.rows, h)
      case None => U32(|t.rows|)
      case Some(id) => U32(CountAbove(t.rows, U32(id)))
  }

  // ---------- With consecutive ids the queries are slices of the plain list ----------

  lemma {:induction false} IdOfHashFinds(rows: seq<Row>, h: string)
    ensures IdOfHash(rows, h).Some? <==> HasHash(BlocksOf(rows), h)
    ensures IdOfHash(rows, h).Some? ==>
              exists k | 0 <= k < |rows| :: rows[k].id == IdOfHash(rows, h).value && rows[k].block.hash == h
  {
    var bs := BlocksOf(rows);
    if rows != [] && rows[0].block.hash == h {
      assert bs[0].hash == h;
    } else if rows != [] {
      IdOfHashFinds(rows[1..], h);
      var tl := BlocksOf(rows[1..]);
      assert forall k | 0 <= k < |tl| :: tl[k] == bs[k + 1];
      assert forall k | 0 < k < |bs| :: bs[k] == tl[k - 1];
      if IdOfHash(rows[1..], h).Some? {
        var k :| 0 <= k < |rows[1..]|
                 && rows[1..][k].id == IdOfHash(rows[1..], h).value && rows[1..][k].block.hash == h;
        assert rows[k + 1].block.hash == h;
      }
    }
  }

  lemma {:induction false} SelectFromIsSlice(rows: seq<Row>, base: nat, lo: nat, n: nat)
    requires forall i | 0 <= i < |rows| :: rows[i].id == base + i + 1
    requires lo > base
    ensures SelectFrom(rows, lo, n) == Slice(BlocksOf(rows), lo - base - 1, n)
  {
    var bs := BlocksOf(rows);
    if rows != [] && n > 0 {
      var tl := BlocksOf(rows[1..]);
      assert tl == bs[1..];
      if rows[0].id >= lo {
        assert lo == base + 1;
        SelectAll(rows, base, lo, n);
      } else {
        SelectFromIsSlice(rows[1..], base + 1, lo, n);
        TailSlice(bs, lo - base - 2, n);
      }
    }
  }

  lemma TailSlice(bs: seq<Block>, from: nat, n: nat)
    requires bs != []
    ensures Slice(bs[1..], from, n) == Slice(bs, from + 1, n)
  {
    var a, b := Min(from, |bs| - 1), Min(from + n, |bs| - 1);
    assert Min(from + 1, |bs|) == a + 1 && Min(from + 1 + n, |bs|) == b + 1;
    assert bs[1..][a..b] == bs[a + 1..b + 1];
  }

  lemma {:induction false} SelectAll(rows: seq<Row>, base: nat, lo: nat, n: nat)
    requires forall i | 0 <= i < |rows| :: rows[i].id == base + i + 1
    requires lo <= base + 1
    ensures SelectFrom(rows, lo, n) == Slice(BlocksOf(rows), 0, n)
  {
    if rows != [] && n > 0 {
      SelectAll(rows[1..], base + 1, lo, n - 1);
      assert BlocksOf(rows[1..]) == BlocksOf(rows)[1..];
    }
  }

  lemma {:induction false} CountAboveIsSuffix(rows: seq<Row>, base: nat, bound: nat)
    requires forall i | 0 <= i < |rows| :: rows[i].id == base + i + 1
    requires bound <= base + |rows|
    ensures CountAbove(rows, bound) == if bound <= base then |rows| else base + |rows| - bound
  {
    if rows != [] {
      if bound == base + |rows| && |rows| == 1 {
        assert rows[1..] == [];
      } else {
        CountAboveIsSuffix(rows[1..], base + 1, bound);
      }
    }
  }

  // getBlocksByIndexRange after block k is the clipped slice from k + 1 + start; the "0" form slices from start.
  lemma BlockRangeIsSlice(t: Table, start: UInt32, count: UInt32, k: nat)
    requires WellFormed(t) && Consecutive(t) && k < |t.rows|
    requires t.rows[k].block.hash != NO_HASH
    ensures BlockRange(t, start, count, t.rows[k].block.hash) == Slice(Contents(t), k + 1 + start, count)
  {
    IdOfHashUnique(t, k);
    SelectFromIsSlice(t.rows, 0, k + 2 + start, count);
  }

  predicate GapFree(rows: seq<Row>) {
    forall i | 0 <= i < |rows| - 1 :: rows[i + 1].id == rows[i].id + 1
  }

  lemma {:induction false} GapFreeIds(rows: seq<Row>, i: nat)
    requires GapFree(rows) && i < |rows|
    ensures rows[i].id == rows[0].id + i
  {
    if i > 0 {
      GapFreeIds(rows, i - 1);
      assert rows[i - 1 + 1].id == rows[i - 1].id + 1;
    }
  }

  lemma IdOfHashUnique(t: Table, k: nat)
    requires WellFormed(t) && k < |t.rows|
    ensures IdOfHash(t.rows, t.rows[k].block.hash) == Some(t.rows[k].id)
  {
    var h := t.rows[k].block.hash;
    IdOfHashFinds(t.rows, h);
    var bs := Contents(t);
    assert bs[k].hash == h;
    assert HasHash(bs, h);
    var m :| 0 <= m < |t.rows| && t.rows[m].id == IdOfHash(t.rows, h).value && t.rows[m].block.hash == h;
    assert bs[m].hash == h;
  }

  // A range request after the block at position k answers with the slice it means.
  predicate RangeIsSlice(t: Table, k: nat, start: UInt32, count: UInt32)
    requires k < |t.rows|
  {
    BlockRange(t, start, count, t.rows[k].block.hash) == Slice(Contents(t), k + 1 + start, count)
  }

  ghost predicate RangesAreSlices(t: Table) {
    forall k: nat, start: UInt32, count: UInt32 | k < |t.rows| :: RangeIsSlice(t, k, start, count)
  }

  lemma GapFreeSlice(t: Table, k: nat, start: UInt32, count: UInt32)
    requires WellFormed(t) && GapFree(t.rows) && k < |t.rows|
    requires t.rows[0].id > 0 && t.rows[k].block.hash != NO_HASH
    ensures RangeIsSlice(t, k, start, count)
  {
    IdOfHashUnique(t, k);
    forall i | 0 <= i < |t.rows| ensures t.rows[i].id == t.rows[0].id + i { GapFreeIds(t.rows, i); }
    SelectFromIsSlice(t.rows, t.rows[0].id - 1, t.rows[k].id + 1 + start, count);
  }

  lemma GapMisses(t: Table, i: nat)
    requires WellFormed(t) && i + 1 < |t.rows| && t.rows[i + 1].id != t.rows[i].id + 1
    requires t.rows[i].block.hash != NO_HASH
    ensures !RangeIsSlice(t, i, 1, 1)
  {
    IdOfHashUnique(t, i);
    SelectSkips(t.rows, i + 1, t.rows[i].id + 2);
    var bs := Contents(t);
    assert bs[i + 1] == t.rows[i + 1].block;
    if i + 2 < |bs| {
      assert Slice(bs, i + 2, 1)[0] == bs[i + 2];
    }
  }

  // Range requests count ids where they mean positions: they are right exactly when no id is skipped.
  lemma RangesAreSlicesExactly(t: Table)
    requires WellFormed(t) && forall i | 0 <= i < |t.rows| :: t.rows[i].id > 0 && t.rows[i].block.hash != NO_HASH
    ensures RangesAreSlices(t) <==> GapFree(t.rows)
  {
    if GapFree(t.rows) {
      forall k: nat, start: UInt32, count: UInt32 | k < |t.rows|
        ensures RangeIsSlice(t, k, start, count)
      {
        GapFreeSlice(t, k, start, count);
      }
    } else {
      var i: nat :| i < |t.rows| - 1 && t.rows[i + 1].id != t.rows[i].id + 1;
      GapMisses(t, i);
      assert !RangeIsSlice(t, i, 1, 1);
    }
  }

  lemma {:induction false} SelectSkips(rows: seq<Row>, k: nat, lo: nat)
    requires k < |rows| && rows[k].id >= lo
    requires forall i | 0 <= i < k :: rows[i].id < lo
    ensures SelectFrom(rows, lo, 1) == [rows[k].block]
  {
    if k > 0 {
      SelectSkips(rows[1..], k - 1, lo);
    }
  }

  // countBlocksAfterHash cuts the id and the count to 32 bits each; with consecutive ids that makes it
  // the length of the suffix the pages are taken from as long as the table has less than 2^32 rows.
  lemma MissingAfterIsSuffix(t: Table, k: nat)
    requires WellFormed(t) && Consecutive(t) && k < |t.rows|
    requires t.rows[k].block.hash != NO_HASH
    ensures MissingAfter(t, t.rows[k].block.hash)
         == (|t.rows| - (k + 1) % 0x1_0000_0000) % 0x1_0000_0000
    ensures |t.rows| < 0x1_0000_0000 ==> MissingAfter(t, t.rows[k].block.hash) == |t.rows| - (k + 1)
  {
    IdOfHashUnique(t, k);
    CountAboveIsSuffix(t.rows, 0, U32(k + 1));
  }

  // Without a row for the hash a range is empty although the whole table is reported missing.
  lemma UnknownHash(t: Table, start: UInt32, count: UInt32, h: string)
    requires h != NO_HASH && !HasHash(Contents(t), h)
    ensures BlockRange(t, start, count, h) == []
    ensures MissingAfter(t, h) == U32(|t.rows|)
  {
    IdOfHashFinds(t.rows, h);
  }

  // ---------- The repository ----------

  class Repo {
    var rows: seq<Row>
    var lastId: nat

    ghost function Value(): Table
      reads this
    {
      Table(rows, lastId)
    }

    constructor ()
      ensures Value() == EMPTY
    {
      rows, lastId := [], 0;
    }

    method InsertBlock(b: Block, burned: nat) returns (ok: bool)
      modifies this
      ensures (Value(), ok) == Insert(old(Value()), b, burned)
      ensures ok <==> (forall r | r in old(rows) :: r.block.hash != b.hash &&
                         (b.previousHash == "0" || r.block.previousHash != b.previousHash))
      ensures rows == if ok then old(rows) + [Row(old(lastId) + 1, b)] else old(rows)
    {
      assert forall k | 0 <= k < |rows| :: Contents(Value())[k] == rows[k].block;
      if b.previousHash != NO_HASH {
        var found := false;
        for i := 0 to |rows|
          invariant found <==> exists k | 0 <= k < i :: rows[k].block.previousHash == b.previousHash
        {
          if rows[i].block.previousHash == b.previousHash { found := true; }
        }
        assert forall k | 0 <= k < |rows| :: Contents(Value())[k].previousHash == rows[k].block.previousHash;
        if found { return false; }
      }
      var taken := HasBlock(b.hash);
      if taken {
        lastId := lastId + burned;
        return false;
      }
      rows, lastId := rows + [Row(lastId + 1, b)], lastId + 1;
      return true;
    }

    method HasBlock(hash: string) returns (present: bool)
      ensures present <==> HasHash(Contents(Value()), hash)
    {
      present := false;
      for i := 0 to |rows|
        invariant present <==> exists k | 0 <= k < i :: rows[k].block.hash == hash
      {
        if rows[i].block.hash == hash { present := true; }
      }
      assert forall k | 0 <= k < |rows| :: Contents(Value())[k].hash == rows[k].block.hash;
    }

    // The block parameter keeps its default contents when there is no row.
    method FindBlockByHash(hash: string) returns (found: bool, block: Block)
      ensures found <==> HasHash(Contents(Value()), hash)
      ensures found ==> block in Contents(Value()) && block.hash == hash
      ensures !found ==> block == DEFAULT_BLOCK
    {
      found, block := false, DEFAULT_BLOCK;
      var i := 0;
      while i < |rows| && !found
        invariant 0 <= i <= |rows|
        invariant !found ==> block == DEFAULT_BLOCK && forall k | 0 <= k < i :: rows[k].block.hash != hash
        invariant found ==> block.hash == hash && exists k | 0 <= k < i :: rows[k].block == block
        decreases |rows| - i, !found
      {
        if rows[i].block.hash == hash { found, block := true, rows[i].block; }
        i := i + 1;
      }
      assert forall k | 0 <= k < |rows| :: Contents(Value())[k] == rows[k].block;
    }

    method FindTip() returns (found: bool, block: Block)
      ensures found <==> rows != []
      ensures block == if rows == [] then DEFAULT_BLOCK else Contents(Value())[|rows| - 1]
      ensures block.hash == TipHash(Contents(Value()))
      ensures rows == [] ==> block.hash == "0"
    {
      if rows == [] {
        return false, DEFAULT_BLOCK;
      }
      return true, rows[|rows| - 1].block;
    }

    method LoadAllBlocks() returns (blocks: seq<Block>)
      ensures blocks == Contents(Value())
    {
      blocks := [];
      for i := 0 to |rows|
        invariant blocks == BlocksOf(rows[..i])
      {
        blocks := blocks + [rows[i].block];
      }
      assert rows[..|rows|] == rows;
    }

    method GetBlocksByIndexRange(start: UInt32, count: UInt32, lastHash: string) returns (out: seq<Block>)
      ensures out == BlockRange(Value(), start, count, lastHash)
    {
      out := [];
      if lastHash == NO_HASH {
        var i := start;
        while i < |rows| && |out| < count
          invariant start <= i <= start + count && (i <= |rows| || i == start)
          invariant out == Slice(Contents(Value()), start, i - start)
        {
          out := out + [rows[i].block];
          i := i + 1;
        }
      } else {
        var id := FindId(lastHash);
        match id {
          case None => return;
          case Some(last) =>
            var lo := last + 1 + start;
            for i := 0 to |rows|
              invariant |out| <= count
              invariant out + SelectFrom(rows[i..], lo, count - |out|) == SelectFrom(rows, lo, count)
            {
              assert rows[i..][1..] == rows[i + 1..];
              if rows[i].id >= lo && |out| < count { out := out + [rows[i].block]; }
            }
        }
      }
    }

    method FindId(hash: string) returns (id: Option<nat>)
      ensures id == IdOfHash(rows, hash)
    {
      for i := 0 to |rows|
        invariant IdOfHash(rows[i..], hash) == IdOfHash(rows, hash)
      {
        assert rows[i..][1..] == rows[i + 1..];
        if rows[i].block.hash == hash { return Some(rows[i].id); }
      }
      return None;
    }

    method CountBlocksAfterHash(hash: string) returns (missing: UInt32)
      ensures missing == MissingAfter(Value(), hash)
    {
      if hash == NO_HASH {
        return U32(|rows|);
      }
      var id := FindId(hash);
      match id {
        case None => return U32(|rows|);
        case Some(last) =>
          var index := U32(last);
          var n := 0;
          for i := 0 to |rows|
            invariant n + CountAbove(rows[i..], index) == CountAbove(rows, index)
          {
            assert rows[i..][1..] == rows[i + 1..];
            if rows[i].id > index { n := n + 1; }
          }
          return U32(n);
      }
    }
  }
}
