/**
 Start-up (src/app/ChatApplication.cpp:300-385): greet the trusted hosts, page in the first one's peers
 and the missing blocks, validate the batch, insert it, greet all peers. What the hosts answer with is
 an input: the counts they report, and the list and the table behind each page of the first one.
 */
module ChatApplication {
  import opened Blocks
  import opened Chain
  import opened ChainDB
  import opened TextMessages
  import opened BlockchainService
  import opened PeerService

  const PEERS_BATCH_SIZE: UInt32 := 12
  const BLOCKS_BATCH_SIZE: UInt32 := 4

  // The largest count the 32-bit loops get past.
  const MAX_COUNT: UInt32 := 0x1_0000_0000 - 4

  // ---------- The paging loops ----------

  // The loop variable after k rounds of `start += batch` on 32 bits.
  function StartAfter(batch: UInt32, k: nat): UInt32 {
    U32(batch * k)
  }

  // The loop `while (start < count) start += batch` leaves after some number of rounds.
  ghost predicate LoopEnds(batch: UInt32, count: UInt32) {
    exists k: nat :: StartAfter(batch, k) >= count
  }

  // Every start is a multiple of four, also after wrapping, so none is above 2^32 - 4.
  lemma MultiplesOfFour(m: nat)
    ensures U32(4 * m) <= MAX_COUNT
  {
    var w := m - 0x4000_0000 * ((4 * m) / 0x1_0000_0000);
    assert U32(4 * m) == 4 * w;
  }

  // Both loops end exactly when the count is at most 2^32 - 4.
  lemma LoopsEndExactly(count: UInt32)
    ensures LoopEnds(BLOCKS_BATCH_SIZE, count) <==> count <= MAX_COUNT
    ensures LoopEnds(PEERS_BATCH_SIZE, count) <==> count <= MAX_COUNT
  {
    if count <= MAX_COUNT {
      assert StartAfter(BLOCKS_BATCH_SIZE, 0x3FFF_FFFF) == MAX_COUNT;
      assert StartAfter(PEERS_BATCH_SIZE, 357913941) == MAX_COUNT;
    }
    forall k: nat
      ensures StartAfter(BLOCKS_BATCH_SIZE, k) <= MAX_COUNT && StartAfter(PEERS_BATCH_SIZE, k) <= MAX_COUNT
    {
      MultiplesOfFour(k);
      MultiplesOfFour(3 * k);
    }
  }

  lemma NoWrap(n: nat)
    requires n < 0x1_0000_0000
    ensures U32(n) == n
  {
  }

  // ---------- Peer pages ----------

  // As many lists as the loop asks for pages: one for each start 0, 12, 24, ... below the count.
  predicate ListPerPage(lists: seq<seq<UserPeer>>, count: nat) {
    count <= 12 * |lists| < count + 12
  }

  // The pages from number j on; page j, which starts at 12 * j, is answered from lists[j].
  function PeerPages(lists: seq<seq<UserPeer>>, j: nat, me: UserPeer): seq<UserPeer>
    requires j <= |lists| && 12 * |lists| < 0x1_0000_0000 + 12
    decreases |lists| - j
  {
    if j == |lists| then [] else PeerPage(lists[j], 12 * j, PEERS_BATCH_SIZE, me) + PeerPages(lists, j + 1, me)
  }

  lemma PageFits(j: nat, count: UInt32)
    requires 12 * j < count <= MAX_COUNT
    ensures 12 * j + 12 < 0x1_0000_0000
  {
  }

  lemma OnePeerPage(server: seq<UserPeer>, start: UInt32, me: UserPeer)
    requires start <= |server| && start + 12 < 0x1_0000_0000
    ensures PeerPage(server, start, PEERS_BATCH_SIZE, me) == Except(server[start..Min(start + 12, |server|)], {me})
  {
    NoWrap(start + 12);
  }

  lemma ExceptSplit(server: seq<UserPeer>, start: nat, mid: nat, end: nat, me: UserPeer)
    requires start <= mid <= end <= |server|
    ensures Except(server[start..end], {me}) == Except(server[start..mid], {me}) + Except(server[mid..end], {me})
  {
    ExceptConcat(server[start..mid], server[mid..end], {me});
    assert server[start..mid] + server[mid..end] == server[start..end];
  }

  // A list that only grows at its end while the pages are asked for, from at least the reported count on.
  predicate GrowingList(lists: seq<seq<UserPeer>>, count: nat) {
    && (forall i | 0 <= i < |lists| :: count <= |lists[i]|)
    && (forall i, j | 0 <= i <= j < |lists| :: lists[i] <= lists[j])
  }

  // How far the pages reach into the last list: the last page may have grown.
  function Reach(lists: seq<seq<UserPeer>>): nat
    requires lists != []
  {
    Min(12 * |lists|, |lists[|lists| - 1]|)
  }

  // Each page is a slice of the final list: a full one, or the last.
  lemma PeerPageIsSlice(lists: seq<seq<UserPeer>>, j: nat, count: UInt32, me: UserPeer)
    requires count <= MAX_COUNT && ListPerPage(lists, count) && GrowingList(lists, count) && j < |lists|
    ensures 12 * j <= Min(12 * j + 12, Reach(lists)) <= |lists[|lists| - 1]|
    ensures PeerPage(lists[j], 12 * j, PEERS_BATCH_SIZE, me)
         == Except(lists[|lists| - 1][12 * j..Min(12 * j + 12, Reach(lists))], {me})
  {
    var xs, ys := lists[j], lists[|lists| - 1];
    PageFits(j, count);
    OnePeerPage(xs, 12 * j, me);
    assert xs <= ys;
    if j < |lists| - 1 {
      assert 12 * j + 12 <= count <= |xs|;
      assert xs[12 * j..12 * j + 12] == ys[12 * j..12 * j + 12];
    }
  }

  // The pages together are the list, as far as they reach, without the requester.
  lemma {:induction false} PeerPagesCover(lists: seq<seq<UserPeer>>, j: nat, count: UInt32, me: UserPeer)
    requires 0 < count <= MAX_COUNT && ListPerPage(lists, count) && GrowingList(lists, count) && j <= |lists|
    ensures PeerPages(lists, j, me) == Except(lists[|lists| - 1][Min(12 * j, Reach(lists))..Reach(lists)], {me})
    decreases |lists| - j
  {
    var last, reach := lists[|lists| - 1], Reach(lists);
    if j < |lists| {
      var mid := Min(12 * j + 12, reach);
      PeerPageIsSlice(lists, j, count, me);
      assert PeerPages(lists, j + 1, me) == Except(last[mid..reach], {me}) by {
        PeerPagesCover(lists, j + 1, count, me);
      }
      ExceptSplit(last, 12 * j, mid, reach, me);
    } else {
      assert last[reach..reach] == [];
    }
  }

  // The client ends with its own list followed, in order, by the server's peers that are neither
  // itself nor known already: all that were reported, and those that joined before the last page and fit on it.
  lemma PeerPagingIsComplete(own: seq<UserPeer>, lists: seq<seq<UserPeer>>, count: UInt32, me: UserPeer)
    requires 0 < count <= MAX_COUNT && ListPerPage(lists, count) && GrowingList(lists, count)
    requires Distinct(own) && Distinct(lists[|lists| - 1])
    ensures count <= Reach(lists)
    ensures var all := AddAll(own, PeerPages(lists, 0, me));
            all == own + Except(lists[|lists| - 1][..Reach(lists)], {me} + Members(own)) && Distinct(all)
  {
    var seen := lists[|lists| - 1][..Reach(lists)];
    PeerPagesCover(lists, 0, count, me);
    assert lists[|lists| - 1][0..Reach(lists)] == seen;
    ExceptMembers(seen, {me});
    AddAllAppends(own, Except(seen, {me}));
    ExceptTwice(seen, {me}, Members(own));
    AddAllDistinct(own, PeerPages(lists, 0, me));
  }

  // ---------- Block pages ----------

  // As many tables as the loop asks for pages: one for each start 0, 4, 8, ... below the count.
  predicate PerPage(tables: seq<Table>, missing: nat) {
    missing <= 4 * |tables| < missing + 4
  }

  function Flatten(pages: seq<seq<Block>>, j: nat): seq<Block>
    requires j <= |pages|
    decreases |pages| - j
  {
    if j == |pages| then [] else pages[j] + Flatten(pages, j + 1)
  }

  // What the pages deliver when page j, which starts at 4 * j, is answered from tables[j].
  function BlockPages(tables: seq<Table>, lastHash: string): seq<seq<Block>>
    requires 4 * |tables| <= 0x1_0000_0000
  {
    seq(|tables|, j requires 0 <= j < |tables| => BlockRange(tables[j], 4 * j, BLOCKS_BATCH_SIZE, lastHash))
  }

  function Collected(tables: seq<Table>, lastHash: string): seq<Block>
    requires 4 * |tables| <= 0x1_0000_0000
  {
    Flatten(BlockPages(tables, lastHash), 0)
  }

  // lastHash stands right before position `base` of the table: "0" before the first block, otherwise
  // the hash of block base - 1.
  predicate StandsBefore(bs: seq<Block>, lastHash: string, base: nat) {
    if lastHash == NO_HASH then base == 0
    else 0 < base <= |bs| && bs[base - 1].hash == lastHash
  }

  lemma RangeAt(t: Table, start: UInt32, count: UInt32, lastHash: string, base: nat)
    requires WellFormed(t) && Consecutive(t) && StandsBefore(Contents(t), lastHash, base)
    ensures BlockRange(t, start, count, lastHash) == Slice(Contents(t), base + start, count)
  {
    if base > 0 {
      BlockRangeIsSlice(t, start, count, base - 1);
    }
  }

  lemma MissingAt(t: Table, lastHash: string, base: nat)
    requires WellFormed(t) && Consecutive(t) && StandsBefore(Contents(t), lastHash, base)
    requires |t.rows| < 0x1_0000_0000
    ensures MissingAfter(t, lastHash) == |t.rows| - base
  {
    if base > 0 {
      MissingAfterIsSuffix(t, base - 1);
    }
  }

  // A server whose chain only grows at its end while the pages are asked for.
  ghost predicate GrowingServer(tables: seq<Table>, lastHash: string, base: nat, missing: nat) {
    && (forall i | 0 <= i < |tables| ::
          && WellFormed(tables[i]) && Consecutive(tables[i])
          && base + missing <= |tables[i].rows|
          && StandsBefore(Contents(tables[i]), lastHash, base))
    && (forall i, j | 0 <= i <= j < |tables| :: Contents(tables[i]) <= Contents(tables[j]))
  }

  lemma PrefixSlice(xs: seq<Block>, ys: seq<Block>, from: nat, n: nat)
    requires xs <= ys && from + n <= |xs|
    ensures Slice(xs, from, n) == Slice(ys, from, n)
  {
  }

  lemma SliceJoin(bs: seq<Block>, from: nat, m: nat, n: nat)
    ensures Slice(bs, from, m) + Slice(bs, from + m, n) == Slice(bs, from, m + n)
  {
  }

  // Each page is a slice of the final chain: a full one, or the last.
  lemma PageIsSlice(tables: seq<Table>, j: nat, missing: UInt32, lastHash: string, base: nat)
    requires missing <= MAX_COUNT && PerPage(tables, missing) && j < |tables|
    requires GrowingServer(tables, lastHash, base, missing)
    ensures BlockRange(tables[j], 4 * j, BLOCKS_BATCH_SIZE, lastHash)
         == Slice(Contents(tables[|tables| - 1]), base + 4 * j, 4)
  {
    var xs, ys := Contents(tables[j]), Contents(tables[|tables| - 1]);
    RangeAt(tables[j], 4 * j, BLOCKS_BATCH_SIZE, lastHash, base);
    if j < |tables| - 1 {
      assert 4 * j + 4 <= missing && base + missing <= |xs| && xs <= ys;
      PrefixSlice(xs, ys, base + 4 * j, 4);
    }
  }

  lemma {:induction false} FlattenSlices(pages: seq<seq<Block>>, j: nat, chain: seq<Block>, base: nat)
    requires j <= |pages|
    requires forall i | 0 <= i < |pages| :: pages[i] == Slice(chain, base + 4 * i, 4)
    ensures Flatten(pages, j) == Slice(chain, base + 4 * j, 4 * (|pages| - j))
    decreases |pages| - j
  {
    if j < |pages| {
      var from, rest := base + 4 * j, 4 * (|pages| - j - 1);
      assert pages[j] == Slice(chain, from, 4);
      assert Flatten(pages, j + 1) == Slice(chain, from + 4, rest) by { FlattenSlices(pages, j + 1, chain, base); }
      SliceJoin(chain, from, 4, rest);
    }
  }

  lemma CollectedIsRun(tables: seq<Table>, missing: UInt32, lastHash: string, base: nat)
    requires 0 < missing <= MAX_COUNT && PerPage(tables, missing)
    requires GrowingServer(tables, lastHash, base, missing)
    ensures Collected(tables, lastHash) == Slice(Contents(tables[|tables| - 1]), base, 4 * |tables|)
  {
    var chain := Contents(tables[|tables| - 1]);
    var pages := BlockPages(tables, lastHash);
    forall i | 0 <= i < |tables| ensures pages[i] == Slice(chain, base + 4 * i, 4) {
      PageIsSlice(tables, i, missing, lastHash, base);
    }
    FlattenSlices(pages, 0, chain, base);
  }

  // A run of blocks of the server's chain from position base on.
  predicate IsRun(got: seq<Block>, server: seq<Block>, base: nat) {
    base + |got| <= |server| && got == server[base..base + |got|]
  }

  // A run of a valid chain that starts right after the local tip passes validateNewBlocks.
  lemma RunIsAccepted(c: Crypto, bs: seq<Block>, server: seq<Block>, got: seq<Block>, base: nat)
    requires ValidChain(c, server) && StandsBefore(server, TipHash(bs), base) && IsRun(got, server, base)
    requires bs != [] ==> TipHash(bs) != NO_HASH
    ensures NewBlocksAccepted(c, bs, got) && FirstParentCovered(bs, got)
  {
    forall i: nat | i < |got|
      ensures got[i].previousHash == ParentAt(server, base + i) && SingleValid(c, got[i])
    {
      assert got[i] == server[base + i] && BlockOk(c, server, base + i);
    }
    forall i | 1 <= i < |got| ensures got[i].previousHash == got[i - 1].hash {
      assert got[i - 1] == server[base + i - 1];
    }
  }

  lemma PagesMakeRun(tables: seq<Table>, missing: UInt32, lastHash: string, base: nat)
    requires 0 < missing <= MAX_COUNT && PerPage(tables, missing) && GrowingServer(tables, lastHash, base, missing)
    ensures var server, got := Contents(tables[|tables| - 1]), Collected(tables, lastHash);
            && missing <= |got| <= 4 * |tables| && IsRun(got, server, base) && UniqueHashes(got)
            && StandsBefore(server, lastHash, base)
  {
    CollectedIsRun(tables, missing, lastHash, base);
    var last := tables[|tables| - 1];
    assert WellFormed(last) && base + missing <= |last.rows| && StandsBefore(Contents(last), lastHash, base);
    SliceIsRun(Contents(last), base, missing, 4 * |tables|);
  }

  // A server whose chain grows at its end, if at all, from its report on.
  ghost predicate GrowsFrom(reported: Table, tables: seq<Table>) {
    && (forall i | 0 <= i < |tables| ::
          WellFormed(tables[i]) && Consecutive(tables[i]) && Contents(reported) <= Contents(tables[i]))
    && (forall i, j | 0 <= i <= j < |tables| :: Contents(tables[i]) <= Contents(tables[j]))
  }

  lemma GrowthKeepsPlace(reported: Table, tables: seq<Table>, lastHash: string, base: nat)
    requires GrowsFrom(reported, tables) && StandsBefore(Contents(reported), lastHash, base)
    ensures GrowingServer(tables, lastHash, base, |reported.rows| - base)
  {
    forall i | 0 <= i < |tables|
      ensures base <= |reported.rows| <= |tables[i].rows| && StandsBefore(Contents(tables[i]), lastHash, base)
    {
      assert Contents(reported) <= Contents(tables[i]);
      if base > 0 { assert Contents(tables[i])[base - 1] == Contents(reported)[base - 1]; }
    }
  }

  // The table behind the last page, or the reported one when nothing was missing.
  function LastSeen(reported: Table, tables: seq<Table>): Table {
    if tables == [] then reported else tables[|tables| - 1]
  }

  // Pages taken while the server's chain grows make one gap-free, repeat-free run right after the
  // client's tip, at least as long as reported and at most rounded up to whole pages, and it is accepted.
  lemma PagingSurvivesGrowth(c: Crypto, bs: seq<Block>, reported: Table, tables: seq<Table>,
                             missing: UInt32, base: nat)
    requires WellFormed(reported) && Consecutive(reported) && |reported.rows| < 0x1_0000_0000
    requires StandsBefore(Contents(reported), TipHash(bs), base) && (bs != [] ==> TipHash(bs) != NO_HASH)
    requires missing == MissingAfter(reported, TipHash(bs)) <= MAX_COUNT && PerPage(tables, missing)
    requires GrowsFrom(reported, tables) && ValidChain(c, Contents(LastSeen(reported, tables)))
    ensures missing == |reported.rows| - base
    ensures var server, got := Contents(LastSeen(reported, tables)), Collected(tables, TipHash(bs));
            && missing <= |got| <= 4 * |tables| < missing + 4
            && IsRun(got, server, base) && UniqueHashes(got)
            && NewBlocksAccepted(c, bs, got) && FirstParentCovered(bs, got)
  {
    MissingAt(reported, TipHash(bs), base);
    if missing > 0 {
      GrowthKeepsPlace(reported, tables, TipHash(bs), base);
      PagesAccepted(c, bs, tables, missing, base);
    }
  }

  lemma PagesAccepted(c: Crypto, bs: seq<Block>, tables: seq<Table>, missing: UInt32, base: nat)
    requires 0 < missing <= MAX_COUNT && PerPage(tables, missing) && GrowingServer(tables, TipHash(bs), base, missing)
    requires ValidChain(c, Contents(tables[|tables| - 1])) && (bs != [] ==> TipHash(bs) != NO_HASH)
    ensures var server, got := Contents(tables[|tables| - 1]), Collected(tables, TipHash(bs));
            && missing <= |got| <= 4 * |tables| && IsRun(got, server, base) && UniqueHashes(got)
            && NewBlocksAccepted(c, bs, got) && FirstParentCovered(bs, got)
  {
    PagesMakeRun(tables, missing, TipHash(bs), base);
    RunIsAccepted(c, bs, Contents(tables[|tables| - 1]), Collected(tables, TipHash(bs)), base);
  }

  lemma SliceIsRun(server: seq<Block>, base: nat, atLeast: nat, n: nat)
    requires base + atLeast <= |server| && atLeast <= n && UniqueHashes(server)
    ensures var got := Slice(server, base, n);
            && atLeast <= |got| <= n && base + |got| <= |server|
            && IsRun(got, server, base) && UniqueHashes(got)
  {
  }

  // ---------- The whole of init ----------

  // The table after validate-then-insert.
  function Synced(c: Crypto, t: Table, got: seq<Block>, burned: nat): Table {
    if NewBlocksAccepted(c, Contents(t), got) then InsertAll(t, got, burned) else t
  }

  lemma {:induction false} InsertAllMembers(t: Table, batch: seq<Block>, burned: nat)
    ensures Contents(t) <= Contents(InsertAll(t, batch, burned))
    ensures forall b | b in Contents(InsertAll(t, batch, burned)) :: b in Contents(t) || b in batch
    decreases |batch|
  {
    if batch != [] {
      ContentsAppended(t, batch[0]);
      InsertAllMembers(Insert(t, batch[0], burned).0, batch[1..], burned);
    }
  }

  // Whatever pages a host answers with, a node that has a chain, or is answered from "0" on, stores the
  // whole batch when the joint chain is valid and nothing at all when it is not; or two of its blocks clash.
  lemma SyncIsSafe(c: Crypto, t: Table, got: seq<Block>, burned: nat)
    requires WellFormed(t) && ValidChain(c, Contents(t))
    requires Contents(t) != [] || got == [] || got[0].previousHash == "0"
    ensures var all, t' := Contents(t) + got, Synced(c, t, got, burned);
            && (!ValidChain(c, all) ==> t' == t)
            && (ValidChain(c, all) ==> ChainsClash(c, all, all) || Contents(t') == all)
  {
    BatchIsWholeChain(c, Contents(t), got);
    if NewBlocksAccepted(c, Contents(t), got) { AcceptedBatchIsStored(c, t, got, burned); }
  }

  // The blocks name one another in order, whatever the first one names.
  predicate InARow(c: Crypto, got: seq<Block>) {
    && (forall i | 0 <= i < |got| :: SingleValid(c, got[i]))
    && (forall i | 0 <= i < |got| - 1 :: got[i + 1].previousHash == got[i].hash)
  }

  // An empty node stores nothing unless the blocks are self-consistent and in a row, then only blocks of
  // the batch, and all of them in order unless a hash comes twice or the first parent is one of them.
  lemma EmptySyncIsSafe(c: Crypto, t: Table, got: seq<Block>, burned: nat)
    requires WellFormed(t) && Contents(t) == []
    ensures var t' := Synced(c, t, got, burned);
            && (!InARow(c, got) ==> t' == t)
            && (forall b | b in Contents(t') :: b in got && SingleValid(c, b))
            && (InARow(c, got) && NoLoop(got) ==> Contents(t') == got)
  {
    assert InARow(c, got) <==> NewBlocksAccepted(c, [], got) by { RowIsAccepted(c, got); }
    InsertAllMembers(t, got, burned);
    if InARow(c, got) && NoLoop(got) {
      InsertRow(c, t, got, 0, burned);
    }
  }

  lemma RowIsAccepted(c: Crypto, got: seq<Block>)
    ensures InARow(c, got) <==> NewBlocksAccepted(c, [], got)
  {
    assert Linked(got) ==> forall i | 0 <= i < |got| - 1 :: got[i + 1].previousHash == got[i].hash;
    if InARow(c, got) {
      forall i | 1 <= i < |got| ensures got[i].previousHash == got[i - 1].hash {
        assert got[(i - 1) + 1].previousHash == got[i - 1].hash;
      }
    }
  }

  // Hashes come once and the first parent is none of them.
  predicate NoLoop(got: seq<Block>) {
    UniqueHashes(got) && (got == [] || !HasHash(got, got[0].previousHash))
  }

  lemma NextFits(c: Crypto, t: Table, got: seq<Block>, k: nat, burned: nat)
    requires WellFormed(t) && k < |got| && Contents(t) == got[..k] && InARow(c, got) && NoLoop(got)
    ensures var t' := Insert(t, got[k], burned).0; WellFormed(t') && Contents(t') == got[..k + 1]
  {
    var b := got[k];
    if k > 0 { assert got[(k - 1) + 1].previousHash == got[k - 1].hash; }
    forall i | 0 <= i < k ensures got[i].previousHash != b.previousHash {
      if i > 0 { assert got[(i - 1) + 1].previousHash == got[i - 1].hash; }
    }
    InsertAppends(t, b, burned);
    assert got[..k] + [b] == got[..k + 1];
  }

  lemma {:induction false} InsertRow(c: Crypto, t: Table, got: seq<Block>, k: nat, burned: nat)
    requires WellFormed(t) && k <= |got| && Contents(t) == got[..k] && InARow(c, got) && NoLoop(got)
    ensures Contents(InsertAll(t, got[k..], burned)) == got
    decreases |got| - k
  {
    if k < |got| {
      var rest := got[k..];
      NextFits(c, t, got, k, burned);
      assert rest[0] == got[k] && rest[1..] == got[k + 1..];
      InsertRow(c, Insert(t, got[k], burned).0, got, k + 1, burned);
    }
  }

  lemma {:induction false} FlattenEmpty(pages: seq<seq<Block>>, j: nat)
    requires j <= |pages| && forall i | 0 <= i < |pages| :: pages[i] == []
    ensures Flatten(pages, j) == []
    decreases |pages| - j
  {
    if j < |pages| { FlattenEmpty(pages, j + 1); }
  }

  lemma UnknownTipCollectsNothing(t: Table, tables: seq<Table>, lastHash: string)
    requires 4 * |tables| <= 0x1_0000_0000
    requires lastHash != NO_HASH && !HasHash(Contents(t), lastHash)
    requires forall i | 0 <= i < |tables| :: tables[i] == t
    ensures Collected(tables, lastHash) == []
  {
    var pages := BlockPages(tables, lastHash);
    forall i | 0 <= i < |tables| ensures pages[i] == [] {
      UnknownHash(t, 4 * i, BLOCKS_BATCH_SIZE, lastHash);
    }
    FlattenEmpty(pages, 0);
  }

  predicate IsHashPrefix(xs: seq<Block>, ys: seq<Block>) {
    |xs| <= |ys| && forall i | 0 <= i < |xs| :: xs[i].hash == ys[i].hash
  }

  predicate SameHashes(xs: seq<Block>, ys: seq<Block>) {
    |xs| == |ys| && IsHashPrefix(xs, ys)
  }

  // The tip of a valid chain is known to a valid server chain exactly when the whole chain is a
  // prefix of the server's, or two of their blocks clash.
  lemma KnownTipIsPrefix(c: Crypto, bs: seq<Block>, server: seq<Block>)
    requires ValidChain(c, bs) && ValidChain(c, server) && bs != []
    ensures TipHash(bs) != NO_HASH
    ensures ChainsClash(c, bs, server) || (HasHash(server, TipHash(bs)) <==> IsHashPrefix(bs, server))
    ensures IsHashPrefix(bs, server) ==> StandsBefore(server, TipHash(bs), |bs|)
  {
    ValidParent(c, bs, |bs| - 1);
    if HasHash(server, TipHash(bs)) {
      var k :| 0 <= k < |server| && server[k].hash == TipHash(bs);
      HashFixesHistory(c, bs, server, |bs| - 1, k);
    }
    if IsHashPrefix(bs, server) {
      assert server[|bs| - 1].hash == TipHash(bs);
    }
  }

  lemma SyncAppendsRest(c: Crypto, t: Table, server: seq<Block>, burned: nat)
    requires WellFormed(t) && ValidChain(c, Contents(t)) && ValidChain(c, server) && UniqueHashes(server)
    requires IsHashPrefix(Contents(t), server)
    ensures var got := server[|Contents(t)|..];
            && Contents(Synced(c, t, got, burned)) == Contents(t) + got
            && SameHashes(Contents(t) + got, server) && ValidChain(c, Contents(t) + got)
  {
    var bs := Contents(t);
    var got := server[|bs|..];
    if bs != [] { KnownTipIsPrefix(c, bs, server); }
    RunIsAccepted(c, bs, server, got, |bs|);
    StoredBatch(c, t, got, server, burned);
  }

  lemma StoredBatch(c: Crypto, t: Table, got: seq<Block>, server: seq<Block>, burned: nat)
    requires WellFormed(t) && ValidChain(c, Contents(t)) && UniqueHashes(server)
    requires NewBlocksAccepted(c, Contents(t), got) && FirstParentCovered(Contents(t), got)
    requires SameHashes(Contents(t) + got, server)
    ensures Contents(Synced(c, t, got, burned)) == Contents(t) + got && ValidChain(c, Contents(t) + got)
  {
    BatchIsWholeChain(c, Contents(t), got);
    SameHashesUnique(Contents(t) + got, server);
    InsertAllAppends(c, t, got, burned);
  }

  lemma SameHashesUnique(xs: seq<Block>, ys: seq<Block>)
    requires SameHashes(xs, ys) && UniqueHashes(ys)
    ensures UniqueHashes(xs)
  {
    forall i, j | 0 <= i < j < |xs| ensures xs[i].hash != xs[j].hash {
      assert xs[i].hash == ys[i].hash && xs[j].hash == ys[j].hash;
    }
  }

  lemma {:induction false} CountAboveBound(rows: seq<Row>, bound: nat)
    ensures CountAbove(rows, bound) <= |rows|
  {
    if rows != [] { CountAboveBound(rows[1..], bound); }
  }

  lemma MissingBound(t: Table, h: string)
    ensures MissingAfter(t, h) <= |t.rows|
  {
    var id := IdOfHash(t.rows, h);
    if h != NO_HASH && id.Some? { CountAboveBound(t.rows, U32(id.value)); }
  }

  // A local chain that is a prefix of the server's is brought up to it.
  lemma SyncFromPrefix(c: Crypto, t: Table, server: Table, tables: seq<Table>, burned: nat)
    requires WellFormed(t) && ValidChain(c, Contents(t))
    requires WellFormed(server) && Consecutive(server) && ValidChain(c, Contents(server)) && |server.rows| <= MAX_COUNT
    requires PerPage(tables, MissingAfter(server, TipHash(Contents(t)))) && 4 * |tables| <= 0x1_0000_0000
    requires forall i | 0 <= i < |tables| :: tables[i] == server
    requires IsHashPrefix(Contents(t), Contents(server))
    ensures var t' := Synced(c, t, Collected(tables, TipHash(Contents(t))), burned);
            ValidChain(c, Contents(t')) && SameHashes(Contents(t'), Contents(server))
  {
    var bs, ss := Contents(t), Contents(server);
    if bs != [] { KnownTipIsPrefix(c, bs, ss); }
    MissingAt(server, TipHash(bs), |bs|);
    StaticPages(server, tables, |ss| - |bs|, TipHash(bs), |bs|);
    SyncAppendsRest(c, t, ss, burned);
  }

  // Against one unchanging valid server chain, start-up ends with the server's hashes when the local
  // chain is a prefix of it, leaves the local table alone otherwise (ahead, diverged), and the result
  // is valid; or two blocks of the two chains clash.
  lemma StartupSyncIsExact(c: Crypto, t: Table, server: Table, tables: seq<Table>, burned: nat)
    requires WellFormed(t) && ValidChain(c, Contents(t))
    requires WellFormed(server) && Consecutive(server) && ValidChain(c, Contents(server)) && |server.rows| <= MAX_COUNT
    requires PerPage(tables, MissingAfter(server, TipHash(Contents(t))))
    requires forall i | 0 <= i < |tables| :: tables[i] == server
    ensures 4 * |tables| <= 0x1_0000_0000
    ensures ChainsClash(c, Contents(t), Contents(server)) ||
            var t' := Synced(c, t, Collected(tables, TipHash(Contents(t))), burned);
            && ValidChain(c, Contents(t'))
            && (if IsHashPrefix(Contents(t), Contents(server)) then SameHashes(Contents(t'), Contents(server))
                else t' == t)
  {
    var bs, ss := Contents(t), Contents(server);
    MissingBound(server, TipHash(bs));
    if IsHashPrefix(bs, ss) {
      SyncFromPrefix(c, t, server, tables, burned);
    } else {
      KnownTipIsPrefix(c, bs, ss);
      if !HasHash(ss, TipHash(bs)) {
        UnknownTipCollectsNothing(server, tables, TipHash(bs));
      }
    }
  }

  lemma StaticPages(server: Table, tables: seq<Table>, missing: UInt32, lastHash: string, base: nat)
    requires WellFormed(server) && Consecutive(server) && StandsBefore(Contents(server), lastHash, base)
    requires missing == |server.rows| - base <= MAX_COUNT && PerPage(tables, missing)
    requires forall i | 0 <= i < |tables| :: tables[i] == server
    ensures Collected(tables, lastHash) == Contents(server)[base..]
  {
    if missing > 0 {
      CollectedIsRun(tables, missing, lastHash, base);
    }
  }

  // The answer of one trusted host to a CONNECT. Hosts that cannot be reached give none.
  datatype Greeting = Greeting(from: UserPeer, peersToReceive: UInt32, missing: UInt32)

  // The handlers of the host that answer a starting client (ChatService).
  class Server {
    const repo: Repo
    const peers: Peers

    constructor (repo: Repo, peers: Peers)
      ensures this.repo == repo && this.peers == peers
    {
      this.repo, this.peers := repo, peers;
    }

    // The client is added to the list before the list is counted.
    method AnswerConnect(me: UserPeer, from: UserPeer, lastBlockHash: string) returns (greeting: Greeting)
      modifies peers
      ensures peers.peers == AddIfNew(old(peers.peers), from) && from in peers.peers
      ensures greeting == Greeting(me, U32(|peers.peers|), MissingAfter(repo.Value(), lastBlockHash))
    {
      peers.AddPeer(from);
      var missing := repo.CountBlocksAfterHash(lastBlockHash);
      greeting := Greeting(me, U32(|peers.peers|), missing);
    }

    method AnswerBlockRange(start: UInt32, count: UInt32, lastHash: string) returns (blocks: seq<Block>)
      ensures blocks == BlockRange(repo.Value(), start, count, lastHash)
    {
      blocks := repo.GetBlocksByIndexRange(start, count, lastHash);
    }
  }

  // What the pages come from: the first host that answered.
  datatype Host = Host(peerLists: seq<seq<UserPeer>>, tables: seq<Table>)

  function Greeters(greetings: seq<Greeting>): seq<UserPeer> {
    seq(|greetings|, i requires 0 <= i < |greetings| => greetings[i].from)
  }

  // Each answer overwrites the counts, so the last one stands.
  function PeersToReceive(greetings: seq<Greeting>): UInt32 {
    if greetings == [] then 0 else greetings[|greetings| - 1].peersToReceive
  }

  function MissingBlocks(greetings: seq<Greeting>): UInt32 {
    if greetings == [] then 0 else greetings[|greetings| - 1].missing
  }

  // With several hosts: they join in the order of their answers, and the last answer's counts stand.
  lemma LastAnswerStands(greetings: seq<Greeting>, last: Greeting)
    ensures Greeters(greetings + [last]) == Greeters(greetings) + [last.from]
    ensures PeersToReceive(greetings + [last]) == last.peersToReceive
    ensures MissingBlocks(greetings + [last]) == last.missing
    ensures Greeters([]) == [] && PeersToReceive([]) == 0 && MissingBlocks([]) == 0
  {
  }

  // A client of one host whose table stays as it was when it answered the CONNECT ends as
  // StartupSyncIsExact says.
  lemma OneHostChain(c: Crypto, t: Table, greeting: Greeting, server: Table, tables: seq<Table>, burned: nat)
    requires WellFormed(t) && ValidChain(c, Contents(t))
    requires WellFormed(server) && Consecutive(server) && ValidChain(c, Contents(server)) && |server.rows| <= MAX_COUNT
    requires greeting.missing == MissingAfter(server, TipHash(Contents(t)))
    requires PerPage(tables, MissingBlocks([greeting])) && forall i | 0 <= i < |tables| :: tables[i] == server
    ensures 4 * |tables| <= 0x1_0000_0000
    ensures ChainsClash(c, Contents(t), Contents(server)) ||
            var t' := Synced(c, t, Collected(tables, TipHash(Contents(t))), burned);
            && ValidChain(c, Contents(t'))
            && (if IsHashPrefix(Contents(t), Contents(server)) then SameHashes(Contents(t'), Contents(server))
                else t' == t)
  {
    StartupSyncIsExact(c, t, server, tables, burned);
  }

  // And if the host's list stays the same too, the client's holds the host and all its peers but the client.
  lemma OneHostPeers(me: UserPeer, greeting: Greeting, peers: seq<UserPeer>, lists: seq<seq<UserPeer>>)
    requires Distinct(peers) && 0 < |peers| <= MAX_COUNT && greeting.peersToReceive == |peers|
    requires ListPerPage(lists, PeersToReceive([greeting])) && forall i | 0 <= i < |lists| :: lists[i] == peers
    ensures 12 * |lists| < 0x1_0000_0000 + 12
    ensures AddAll(AddAll([], Greeters([greeting])), PeerPages(lists, 0, me))
         == [greeting.from] + Except(peers, {me, greeting.from})
  {
    PeerPagingIsComplete([greeting.from], lists, |peers|, me);
    assert peers[..Reach(lists)] == peers;
    assert Greeters([greeting]) == [greeting.from] && AddAll([], [greeting.from]) == [greeting.from];
    assert {me} + Members([greeting.from]) == {me, greeting.from};
  }

  class Application {
    const service: Service
    const peers: Peers

    constructor (service: Service, peers: Peers)
      ensures this.service == service && this.peers == peers
    {
      this.service, this.peers := service, peers;
    }

    // The CONNECT exchange with the trusted hosts.
    method Greet(greetings: seq<Greeting>) returns (peersToReceive: UInt32, missing: UInt32)
      modifies peers
      ensures peers.peers == AddAll(old(peers.peers), Greeters(greetings))
      ensures greetings != [] ==> peers.peers != []
      ensures peersToReceive == PeersToReceive(greetings) && missing == MissingBlocks(greetings)
    {
      ghost var before, froms := peers.peers, Greeters(greetings);
      peersToReceive, missing := 0, 0;
      for i := 0 to |greetings|
        invariant AddAll(peers.peers, froms[i..]) == AddAll(before, froms)
        invariant i > 0 ==> peers.peers != []
        invariant peersToReceive == PeersToReceive(greetings[..i]) && missing == MissingBlocks(greetings[..i])
      {
        assert froms[i..][1..] == froms[i + 1..];
        assert greetings[..i + 1] == greetings[..i] + [greetings[i]];
        peers.AddPeer(greetings[i].from);
        peersToReceive, missing := greetings[i].peersToReceive, greetings[i].missing;
      }
      assert greetings[..|greetings|] == greetings;
    }

    // `closing` are the peers that answer the CONNECT at the end, under the names they give themselves.
    // A count above MAX_COUNT would keep the loops running for ever (LoopsEndExactly).
    method Init(me: UserPeer, greetings: seq<Greeting>, host: Host, closing: seq<UserPeer>, burned: nat)
      returns (localValid: bool, stored: bool)
      requires service.newBlocks == [] && peers.peers == []
      requires PeersToReceive(greetings) <= MAX_COUNT && MissingBlocks(greetings) <= MAX_COUNT
      requires ListPerPage(host.peerLists, PeersToReceive(greetings)) && PerPage(host.tables, MissingBlocks(greetings))
      modifies service, service.repo, peers
      ensures peers.peers == AddAll(AddAll(AddAll([], Greeters(greetings)), PeerPages(host.peerLists, 0, me)), closing)
      ensures localValid <==> ValidChain(service.crypto, old(service.LocalChain()))
      ensures var t := old(service.repo.Value());
              var got := Collected(host.tables, TipHash(Contents(t)));
              && service.repo.Value() == Synced(service.crypto, t, got, burned)
              && (stored <==> NewBlocksAccepted(service.crypto, Contents(t), got))
      ensures !stored ==> service.repo.Value() == old(service.repo.Value())
    {
      var _, tip := service.repo.FindTip();
      var peersToReceive, missing := Greet(greetings);
      localValid := service.ValidateLocalChain();
      if |peers.peers| > 0 {
        RequestPeers(me, host.peerLists, peersToReceive);
        RequestBlocks(host.tables, missing, tip.hash);
      }
      assert service.newBlocks == Collected(host.tables, tip.hash);
      stored := service.ValidateNewBlocks();
      if stored {
        service.InsertNewBlocks(burned);
      }
      peers.AddPage(closing);
    }

    method RequestPeers(me: UserPeer, lists: seq<seq<UserPeer>>, count: UInt32)
      requires count <= MAX_COUNT && ListPerPage(lists, count)
      modifies peers
      ensures peers.peers == AddAll(old(peers.peers), PeerPages(lists, 0, me))
    {
      ghost var before := peers.peers;
      var start, j := 0, 0;
      while start < count
        invariant start == 12 * j && j <= |lists|
        invariant AddAll(peers.peers, PeerPages(lists, j, me)) == AddAll(before, PeerPages(lists, 0, me))
        decreases count - start
      {
        var page := PeerPage(lists[j], start, PEERS_BATCH_SIZE, me);
        AddAllConcat(peers.peers, page, PeerPages(lists, j + 1, me));
        peers.AddPage(page);
        PageFits(j, count);
        NoWrap(start + 12);
        start, j := U32(start + PEERS_BATCH_SIZE), j + 1;
      }
    }

    // One BLOCK_RANGE_REQUEST, answered from the table of its page.
    method RequestPage(tables: seq<Table>, j: nat, start: UInt32, lastHash: string) returns (page: seq<Block>)
      requires 4 * |tables| <= 0x1_0000_0000 && j < |tables| && start == 4 * j
      ensures page == BlockPages(tables, lastHash)[j]
    {
      page := BlockRange(tables[j], start, BLOCKS_BATCH_SIZE, lastHash);
    }

    method RequestBlocks(tables: seq<Table>, missing: UInt32, lastHash: string)
      requires missing <= MAX_COUNT && PerPage(tables, missing)
      modifies service
      ensures service.newBlocks == old(service.newBlocks) + Collected(tables, lastHash)
    {
      ghost var before := service.newBlocks;
      ghost var pages := BlockPages(tables, lastHash);
      var start, j := 0, 0;
      while start < missing
        invariant start == 4 * j && j <= |tables|
        invariant service.newBlocks + Flatten(pages, j) == before + Flatten(pages, 0)
        decreases missing - start
      {
        NoWrap(start + 4);
        assert service.newBlocks + pages[j] + Flatten(pages, j + 1) == before + Flatten(pages, 0);
        var page := RequestPage(tables, j, start, lastHash);
        service.AddNewBlockRange(page);
        start, j := U32(start + BLOCKS_BATCH_SIZE), j + 1;
      }
    }
  }
}
