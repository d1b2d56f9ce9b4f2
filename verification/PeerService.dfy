/**
 The peer list of one node (src/domain/peer/PeerService.cpp) and the peer pages a server answers with
 (src/domain/chat/ChatService.cpp:131-172).
 */
module PeerService {
  import opened Hex
  import opened Blocks
  import opened ChainDB
  import opened TextMessages

  predicate Distinct(ps: seq<UserPeer>) {
    forall i, j | 0 <= i < j < |ps| :: ps[i] != ps[j]
  }

  function AddIfNew(ps: seq<UserPeer>, p: UserPeer): seq<UserPeer> {
    if p in ps then ps else ps + [p]
  }

  function AddAll(ps: seq<UserPeer>, qs: seq<UserPeer>): seq<UserPeer>
    decreases |qs|
  {
    if qs == [] then ps else AddAll(AddIfNew(ps, qs[0]), qs[1..])
  }

  // The members of a list that satisfy nothing but not being excluded, in order.
  function Except(qs: seq<UserPeer>, excluded: set<UserPeer>): seq<UserPeer> {
    if qs == [] then []
    else (if qs[0] in excluded then [] else [qs[0]]) + Except(qs[1..], excluded)
  }

  function Members(ps: seq<UserPeer>): set<UserPeer> {
    set p | p in ps
  }

  // One page: positions start .. start + count (a 32-bit sum) of the list, without the requester.
  function PeerPage(ps: seq<UserPeer>, start: UInt32, count: UInt32, requester: UserPeer): seq<UserPeer> {
    var end := Min(U32(start + count), |ps|);
    if end <= start then [] else Except(ps[start..end], {requester})
  }

  // A page whose end does not fit into 32 bits is empty.
  lemma PageWraps(ps: seq<UserPeer>, start: UInt32, count: UInt32, requester: UserPeer)
    requires start + count >= 0x1_0000_0000
    ensures PeerPage(ps, start, count, requester) == []
  {
  }

  lemma {:induction false} ExceptConcat(xs: seq<UserPeer>, ys: seq<UserPeer>, excluded: set<UserPeer>)
    ensures Except(xs + ys, excluded) == Except(xs, excluded) + Except(ys, excluded)
  {
    if xs == [] {
      assert xs + ys == ys;
    } else {
      var head := if xs[0] in excluded then [] else [xs[0]];
      ExceptConcat(xs[1..], ys, excluded);
      assert (xs + ys)[0] == xs[0] && (xs + ys)[1..] == xs[1..] + ys;
      assert head + Except(xs[1..], excluded) == Except(xs, excluded);
      assert head + (Except(xs[1..], excluded) + Except(ys, excluded)) == Except(xs, excluded) + Except(ys, excluded);
    }
  }

  lemma {:induction false} ExceptTwice(qs: seq<UserPeer>, a: set<UserPeer>, b: set<UserPeer>)
    ensures Except(Except(qs, a), b) == Except(qs, a + b)
  {
    if qs != [] {
      ExceptTwice(qs[1..], a, b);
      if qs[0] !in a {
        assert Except(qs, a)[1..] == Except(qs[1..], a);
      } else {
        assert Except(qs, a) == Except(qs[1..], a);
      }
    }
  }

  lemma {:induction false} ExceptMembers(qs: seq<UserPeer>, excluded: set<UserPeer>)
    ensures forall p :: p in Except(qs, excluded) <==> p in qs && p !in excluded
    ensures Distinct(qs) ==> Distinct(Except(qs, excluded))
  {
    if qs != [] {
      ExceptMembers(qs[1..], excluded);
      assert qs == [qs[0]] + qs[1..];
      if Distinct(qs) {
        assert Distinct(qs[1..]);
        assert qs[0] !in qs[1..];
      }
    }
  }

  lemma {:induction false} AddAllConcat(ps: seq<UserPeer>, xs: seq<UserPeer>, ys: seq<UserPeer>)
    ensures AddAll(ps, xs + ys) == AddAll(AddAll(ps, xs), ys)
    decreases |xs|
  {
    if xs == [] {
      assert xs + ys == ys;
    } else {
      assert (xs + ys)[1..] == xs[1..] + ys;
      AddAllConcat(AddIfNew(ps, xs[0]), xs[1..], ys);
    }
  }

  // Adding a duplicate-free list appends, in order, exactly the members not yet known.
  lemma {:induction false} AddAllAppends(ps: seq<UserPeer>, qs: seq<UserPeer>)
    requires Distinct(qs)
    ensures AddAll(ps, qs) == ps + Except(qs, Members(ps))
    decreases |qs|
  {
    if qs != [] {
      var p, rest := qs[0], qs[1..];
      DistinctTail(qs);
      if p in ps {
        AddAllAppends(ps, rest);
      } else {
        AddAllAppends(ps + [p], rest);
        ExceptSame(rest, Members(ps), Members(ps + [p]));
        assert ps + [p] + Except(rest, Members(ps)) == ps + ([p] + Except(rest, Members(ps)));
      }
    }
  }

  lemma DistinctTail(qs: seq<UserPeer>)
    requires Distinct(qs) && qs != []
    ensures Distinct(qs[1..]) && qs[0] !in qs[1..]
  {
  }

  lemma {:induction false} ExceptSame(qs: seq<UserPeer>, a: set<UserPeer>, b: set<UserPeer>)
    requires forall p | p in qs :: p in a <==> p in b
    ensures Except(qs, a) == Except(qs, b)
  {
    if qs != [] {
      assert qs[0] in qs && forall p | p in qs[1..] :: p in qs;
      ExceptSame(qs[1..], a, b);
    }
  }

  lemma {:induction false} AddAllDistinct(ps: seq<UserPeer>, qs: seq<UserPeer>)
    requires Distinct(ps)
    ensures Distinct(AddAll(ps, qs))
    decreases |qs|
  {
    if qs != [] {
      AddAllDistinct(AddIfNew(ps, qs[0]), qs[1..]);
    }
  }

  class Peers {
    var peers: seq<UserPeer>

    constructor ()
      ensures peers == []
    {
      peers := [];
    }

    method AddPeer(p: UserPeer)
      modifies this
      ensures peers == AddIfNew(old(peers), p)
      ensures old(Distinct(peers)) ==> Distinct(peers)
    {
      for i := 0 to |peers|
        invariant peers == old(peers) && p !in peers[..i]
      {
        if peers[i] == p { return; }
      }
      assert peers[..|peers|] == peers;
      peers := peers + [p];
    }

    // Erases the first occurrence; in a duplicate-free list that removes the peer.
    method RemovePeer(p: UserPeer)
      modifies this
      ensures old(Distinct(peers)) ==> Distinct(peers) && p !in peers
      ensures old(Distinct(peers)) ==> forall q | q != p :: q in peers <==> q in old(peers)
      ensures p !in old(peers) ==> peers == old(peers)
      ensures p in old(peers) ==> exists i | 0 <= i < |old(peers)| ::
                old(peers)[i] == p && peers == old(peers)[..i] + old(peers)[i + 1..]
    {
      for i := 0 to |peers|
        invariant peers == old(peers) && p !in peers[..i]
      {
        if peers[i] == p {
          assert peers == peers[..i] + [p] + peers[i + 1..];
          peers := peers[..i] + peers[i + 1..];
          return;
        }
      }
      assert peers[..|peers|] == peers;
    }

    // None is std::out_of_range.
    method GetPeer(index: nat) returns (p: Option<UserPeer>)
      ensures p == if index < |peers| then Some(peers[index]) else None
    {
      return if index < |peers| then Some(peers[index]) else None;
    }

    // handleIncomingPeerListMessage
    method AnswerPage(start: UInt32, count: UInt32, requester: UserPeer) returns (page: seq<UserPeer>)
      ensures page == PeerPage(peers, start, count, requester)
    {
      page := [];
      var i, end := start, U32(start + count);
      while i < end
        invariant start <= i <= |peers| || i == start
        invariant i <= end || i == start
        invariant i <= |peers| ==> page == Except(peers[start..i], {requester})
        invariant i > |peers| ==> page == []
      {
        var p := GetPeer(i);
        if p.None? { break; }
        ExceptConcat(peers[start..i], [p.value], {requester});
        assert peers[start..i] + [p.value] == peers[start..i + 1];
        if p.value != requester { page := page + [p.value]; }
        i := i + 1;
      }
    }

    // handleOutgoingPeerListMessage
    method AddPage(page: seq<UserPeer>)
      modifies this
      ensures peers == AddAll(old(peers), page)
    {
      ghost var before := peers;
      for i := 0 to |page|
        invariant AddAll(peers, page[i..]) == AddAll(before, page)
      {
        assert page[i..][1..] == page[i + 1..];
        AddPeer(page[i]);
      }
    }
  }
}
