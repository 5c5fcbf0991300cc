/** The bootstrap server's peer list: find or prepend, then expire in place
    (src/peer_discovery_bootstrap_server_thread.c). */
module Registries {
  import opened Bytes
  import opened LinkedLists
  import opened Peers
  import opened ReturnCodes

  /** The source compares with the keepalive in seconds, in floating point. */
  predicate Expired(keepaliveMicroseconds: uint64, now: int, p: PeerInfo) {
    (now - p.lastConnected) * 1_000_000 > keepaliveMicroseconds
  }

  function Unexpired(keepalive: uint64, now: int, ps: seq<PeerInfo>): seq<PeerInfo> {
    if ps == [] then
      []
    else
      var p := ps[|ps| - 1];
      Unexpired(keepalive, now, ps[..|ps| - 1]) + if Expired(keepalive, now, p) then [] else [p]
  }

  /** The position of the first peer with the address, or the number of peers. */
  function Position(ps: seq<PeerInfo>, a: Address): (i: nat)
    ensures i <= |ps|
    ensures i < |ps| ==> ps[i].address == a
    ensures forall k :: 0 <= k < i ==> ps[k].address != a
  {
    if ps == [] || ps[0].address == a then 0 else 1 + Position(ps[1..], a)
  }

  function FindOrPrepend(ps: seq<PeerInfo>, p: PeerInfo): seq<PeerInfo> {
    var i := Position(ps, p.address);
    if i < |ps| then ps[i := PeerInfo(ps[i].address, p.lastConnected)] else [p] + ps
  }

  /** A handled request: who registered, and when the clock was read to stamp it and to expire peers. */
  datatype Registration = Registration(address: Address, stampedAt: int64, expiredAt: int64)

  function Register(keepalive: uint64, ps: seq<PeerInfo>, r: Registration): seq<PeerInfo> {
    Unexpired(keepalive, r.expiredAt, FindOrPrepend(ps, PeerInfo(r.address, r.stampedAt)))
  }

  /** The peer list after handling `log`, starting from no peers. */
  function PeersAfter(keepalive: uint64, log: seq<Registration>): seq<PeerInfo> {
    if log == [] then [] else Register(keepalive, PeersAfter(keepalive, log[..|log| - 1]), log[|log| - 1])
  }

  lemma PositionIsFirst(ps: seq<PeerInfo>, a: Address, i: nat)
    requires i <= |ps|
    requires i < |ps| ==> ps[i].address == a
    requires forall k :: 0 <= k < i ==> ps[k].address != a
    ensures i == Position(ps, a)
  {
  }

  predicate FirstWithAddress(ps: seq<PeerInfo>, a: Address, i: nat)
    requires i < |ps|
  {
    ps[i].address == a && forall k :: 0 <= k < i ==> ps[k].address != a
  }

  /** Finds the peer's address and refreshes its time, or prepends the peer. */
  method UpdatePeer(list: LinkedList<PeerInfo>, peerInfo: PeerInfo)
    requires list.Valid() && list.sameKey == Some(SameAddress)
    modifies list.Repr
    ensures list.Valid() && fresh(list.Repr - old(list.Repr)) && list.freed == old(list.freed)
    ensures list.contents == FindOrPrepend(old(list.contents), peerInfo)
    // A new address goes first; a known one keeps its place, and so do all the others.
    ensures (forall q :: q in old(list.contents) ==> q.address != peerInfo.address) ==>
              list.contents == [peerInfo] + old(list.contents)
    ensures forall i :: 0 <= i < |old(list.contents)| && FirstWithAddress(old(list.contents), peerInfo.address, i) ==>
              list.contents == old(list.contents)[i := peerInfo]
  {
    var found, index := list.Find(peerInfo);
    PositionIsFirst(list.contents, peerInfo.address, index);
    if found.value == null {
      list.Prepend(peerInfo);
    } else {
      list.SetData(found.value, PeerInfo(found.value.data.address, peerInfo.lastConnected), index);
    }
  }

  /** The nodes at the positions of expired peers, or of the others. */
  ghost function Select<T>(keepalive: uint64, now: int, ps: seq<PeerInfo>, nodes: seq<T>, expired: bool): seq<T>
    requires |nodes| == |ps|
  {
    if ps == [] then
      []
    else
      var k := |ps| - 1;
      Select(keepalive, now, ps[..k], nodes[..k], expired) +
      if Expired(keepalive, now, ps[k]) == expired then [nodes[k]] else []
  }

  /** Of the peers `ps` at `nodes`, the first `seen` have been examined. `nowPs` at `nowNodes` are in the
      list, the first `kept` of them examined, and `gone` were freed. */
  ghost predicate Examined<T>(
      keepalive: uint64, now: int, ps: seq<PeerInfo>, nodes: seq<T>,
      nowPs: seq<PeerInfo>, nowNodes: seq<T>, gone: seq<T>, kept: nat, seen: nat)
    requires |nodes| == |ps| && |nowNodes| == |nowPs|
  {
    && kept <= seen <= |ps|
    && |nowPs| == |ps| - seen + kept
    && nowNodes[kept..] == nodes[seen..]
    && nowPs[kept..] == ps[seen..]
    && nowPs[..kept] == Unexpired(keepalive, now, ps[..seen])
    && nowNodes[..kept] == Select(keepalive, now, ps[..seen], nodes[..seen], false)
    && gone == Select(keepalive, now, ps[..seen], nodes[..seen], true)
  }

  /** Taking element `k` out of `s`, or stepping past it, leaves the same elements still to be seen. */
  lemma SkipOne<T>(s: seq<T>, all: seq<T>, k: nat, seen: nat)
    requires k < |s| && seen < |all| && s[k..] == all[seen..]
    ensures s[k] == all[seen] && s[k + 1..] == all[seen + 1..] && s[..k + 1] == s[..k] + [s[k]]
    ensures var t := s[..k] + s[k + 1..]; t[..k] == s[..k] && t[k..] == all[seen + 1..]
  {
    assert s[k] == s[k..][0] && all[seen] == all[seen..][0];
    assert s[k + 1..] == s[k..][1..] && all[seen + 1..] == all[seen..][1..];
  }

  lemma ExamineOne<T>(
      keepalive: uint64, now: int, ps: seq<PeerInfo>, nodes: seq<T>,
      nowPs: seq<PeerInfo>, nowNodes: seq<T>, gone: seq<T>, kept: nat, seen: nat)
    requires |nodes| == |ps| && |nowNodes| == |nowPs| && kept < |nowPs|
    requires Examined(keepalive, now, ps, nodes, nowPs, nowNodes, gone, kept, seen)
    ensures seen < |ps|
    ensures if Expired(keepalive, now, nowPs[kept]) then
              Examined(keepalive, now, ps, nodes, nowPs[..kept] + nowPs[kept + 1..],
                       nowNodes[..kept] + nowNodes[kept + 1..], gone + [nowNodes[kept]], kept, seen + 1)
            else
              Examined(keepalive, now, ps, nodes, nowPs, nowNodes, gone, kept + 1, seen + 1)
  {
    SkipOne(nowPs, ps, kept, seen);
    SkipOne(nowNodes, nodes, kept, seen);
    assert ps[..seen + 1][..seen] == ps[..seen] && nodes[..seen + 1][..seen] == nodes[..seen];
  }

  lemma ExaminedAll<T>(
      keepalive: uint64, now: int, ps: seq<PeerInfo>, nodes: seq<T>,
      nowPs: seq<PeerInfo>, nowNodes: seq<T>, gone: seq<T>, seen: nat)
    requires |nodes| == |ps| && |nowNodes| == |nowPs|
    requires Examined(keepalive, now, ps, nodes, nowPs, nowNodes, gone, |nowPs|, seen)
    ensures nowPs == Unexpired(keepalive, now, ps)
    ensures nowNodes == Select(keepalive, now, ps, nodes, false)
    ensures gone == Select(keepalive, now, ps, nodes, true)
  {
    assert ps[..seen] == ps && nodes[..seen] == nodes;
    assert nowPs[..|nowPs|] == nowPs && nowNodes[..|nowNodes|] == nowNodes;
  }

  /** The body of the expiry loop: unlinks and frees the node if it is expired, and then steps back to the
      node before it; in either case goes on to the next one. */
  method ExamineNode(
      list: LinkedList<PeerInfo>, keepalive: uint64, now: int64, prev: Node?<PeerInfo>, node: Node<PeerInfo>,
      ghost ps: seq<PeerInfo>, ghost nodes: seq<Node<PeerInfo>>, ghost freed: seq<Node<PeerInfo>>,
      ghost gone: seq<Node<PeerInfo>>, ghost kept: nat, ghost seen: nat)
    returns (prev': Node?<PeerInfo>, next: Node?<PeerInfo>, ghost gone': seq<Node<PeerInfo>>, ghost kept': nat)
    requires list.Valid() && |nodes| == |ps| && kept < |list.nodes|
    requires node == list.nodes[kept] && prev == if kept == 0 then null else list.nodes[kept - 1]
    requires Examined(keepalive, now, ps, nodes, list.contents, list.nodes, gone, kept, seen)
    requires list.freed == freed + gone
    modifies list.Repr
    ensures list.Valid() && list.Repr == old(list.Repr) && kept' <= |list.nodes| && seen < |ps|
    ensures next == NodeAt(list.nodes, kept') && prev' == if kept' == 0 then null else list.nodes[kept' - 1]
    ensures Examined(keepalive, now, ps, nodes, list.contents, list.nodes, gone', kept', seen + 1)
    ensures list.freed == freed + gone'
  {
    ExamineOne(keepalive, now, ps, nodes, list.contents, list.nodes, gone, kept, seen);
    hide Examined, Expired, NoDuplicates;
    gone', kept' := gone, kept;
    var current: Node?<PeerInfo> := node;
    if Expired(keepalive, now, node.data) {
      assert freed + gone + [node] == freed + (gone + [node]);
      list.Unlink(prev, node, kept);
      gone', current := gone + [node], prev;
    } else {
      kept' := kept + 1;
    }
    if current == null {
      prev', next := prev, list.head;
    } else {
      prev', next := current, current.next;
    }
  }

  /** The expiry loop. The nodes left are those of the unexpired peers, the nodes freed those of the expired ones. */
  method ExpirePeers(list: LinkedList<PeerInfo>, keepalive: uint64, now: int64)
    requires list.Valid()
    modifies list.Repr
    ensures list.Valid() && list.Repr == old(list.Repr)
    ensures list.contents == Unexpired(keepalive, now, old(list.contents))
    ensures list.nodes == Select(keepalive, now, old(list.contents), old(list.nodes), false)
    ensures list.freed == old(list.freed) + Select(keepalive, now, old(list.contents), old(list.nodes), true)
  {
    ghost var ps, nodes, freed := list.contents, list.nodes, list.freed;
    ghost var gone: seq<Node<PeerInfo>> := [];
    ghost var kept, seen := 0, 0;
    var prev: Node?<PeerInfo> := null;
    var node := list.head;
    assert Examined(keepalive, now, ps, nodes, list.contents, list.nodes, gone, kept, seen);
    hide Examined, Unexpired, Select, Expired, NoDuplicates;
    while node != null
      invariant list.Valid() && list.Repr == old(list.Repr)
      invariant 0 <= kept <= |list.nodes| && 0 <= seen <= |ps|
      invariant node == NodeAt(list.nodes, kept)
      invariant prev == if kept == 0 then null else list.nodes[kept - 1]
      invariant Examined(keepalive, now, ps, nodes, list.contents, list.nodes, gone, kept, seen)
      invariant list.freed == freed + gone
      decreases |ps| - seen
    {
      prev, node, gone, kept := ExamineNode(list, keepalive, now, prev, node, ps, nodes, freed, gone, kept, seen);
      seen := seen + 1;
    }
    ExaminedAll(keepalive, now, ps, nodes, list.contents, list.nodes, gone, seen);
  }

  class Registry {
    const keepalive: uint64
    const list: LinkedList<PeerInfo>
    ghost var log: seq<Registration>

    /** The list is what the whole history of registrations makes it. */
    ghost predicate Valid()
      reads this, list, list.Repr
    {
      && list.Valid()
      && this !in list.Repr
      && list.sameKey == Some(SameAddress)
      && list.contents == PeersAfter(keepalive, log)
    }

    constructor (keepalive: uint64)
      ensures Valid() && log == [] && this.keepalive == keepalive && fresh(list.Repr)
    {
      this.keepalive := keepalive;
      list := new LinkedList(Some(SameAddress));
      log := [];
    }

    /** The part of a request under the mutex. */
    method RegisterPeer(address: Address, stampedAt: int64, expiredAt: int64)
      requires Valid()
      modifies this, list.Repr
      ensures Valid() && log == old(log) + [Registration(address, stampedAt, expiredAt)]
      ensures fresh(list.Repr - old(list.Repr))
    {
      hide Unexpired, FindOrPrepend;
      UpdatePeer(list, PeerInfo(address, stampedAt));
      ExpirePeers(list, keepalive, expiredAt);
      log := log + [Registration(address, stampedAt, expiredAt)];
      assert log[..|log| - 1] == old(log);
    }
  }

  /** Every node is either kept or freed, once. */
  lemma {:induction false} SelectPartitions<T>(keepalive: uint64, now: int, ps: seq<PeerInfo>, nodes: seq<T>)
    requires |nodes| == |ps|
    ensures multiset(nodes) ==
            multiset(Select(keepalive, now, ps, nodes, false)) + multiset(Select(keepalive, now, ps, nodes, true))
  {
    hide Expired;
    if ps == [] {
      assert nodes == [];
    } else {
      var k := |ps| - 1;
      SelectPartitions(keepalive, now, ps[..k], nodes[..k]);
      assert nodes == nodes[..k] + [nodes[k]];
      ghost var kept := Select(keepalive, now, ps[..k], nodes[..k], false);
      ghost var gone := Select(keepalive, now, ps[..k], nodes[..k], true);
      assert multiset(kept + [nodes[k]]) == multiset(kept) + multiset{nodes[k]};
      assert multiset(gone + [nodes[k]]) == multiset(gone) + multiset{nodes[k]};
    }
  }

  // Whole runs.

  lemma UnexpiredOne(keepalive: uint64, now: int, p: PeerInfo)
    ensures Unexpired(keepalive, now, [p]) == if (now - p.lastConnected) * 1_000_000 <= keepalive then [p] else []
  {
    assert [p][..0] == [] && Unexpired(keepalive, now, [p][..0]) == [];
  }

  /** Expiry drops peers one by one, where they stand: what is left of a list is what is left of its parts. */
  lemma {:induction false} UnexpiredInOrder(keepalive: uint64, now: int, ps: seq<PeerInfo>, qs: seq<PeerInfo>)
    ensures Unexpired(keepalive, now, ps + qs) == Unexpired(keepalive, now, ps) + Unexpired(keepalive, now, qs)
  {
    hide Expired;
    if qs == [] {
      assert ps + qs == ps;
    } else {
      var n := |qs| - 1;
      UnexpiredInOrder(keepalive, now, ps, qs[..n]);
      assert (ps + qs)[..|ps| + n] == ps + qs[..n];
    }
  }

  ghost predicate DistinctAddresses(ps: seq<PeerInfo>) {
    forall i, j :: 0 <= i < j < |ps| ==> ps[i].address != ps[j].address
  }

  lemma FindOrPrependMembers(ps: seq<PeerInfo>, p: PeerInfo)
    requires DistinctAddresses(ps)
    ensures var qs := FindOrPrepend(ps, p);
            && DistinctAddresses(qs)
            && forall q :: q in qs <==> q == p || (q in ps && q.address != p.address)
  {
    var i := Position(ps, p.address);
    var qs := FindOrPrepend(ps, p);
    if i < |ps| {
      forall q
        ensures q in qs <==> q == p || (q in ps && q.address != p.address)
      {
        if q in ps && q.address != p.address {
          var k :| 0 <= k < |ps| && ps[k] == q;
          assert qs[k] == q;
        }
        assert qs[i] == p;
      }
    } else {
      assert forall q :: q in qs <==> q == p || q in ps;
    }
  }

  lemma {:induction false} UnexpiredMembers(keepalive: uint64, now: int, ps: seq<PeerInfo>)
    ensures forall q :: q in Unexpired(keepalive, now, ps) <==> q in ps && !Expired(keepalive, now, q)
    ensures DistinctAddresses(ps) ==> DistinctAddresses(Unexpired(keepalive, now, ps))
  {
    hide Expired;
    if ps != [] {
      var front, p := ps[..|ps| - 1], ps[|ps| - 1];
      UnexpiredMembers(keepalive, now, front);
      assert ps == front + [p];
      var kept := Unexpired(keepalive, now, front);
      if DistinctAddresses(ps) {
        forall i | 0 <= i < |kept|
          ensures kept[i].address != p.address
        {
          assert kept[i] in front;
        }
      }
    }
  }

  /** Whatever the clock does, no address is listed twice. */
  lemma {:induction false} AddressesStayDistinct(keepalive: uint64, log: seq<Registration>)
    ensures DistinctAddresses(PeersAfter(keepalive, log))
  {
    hide Unexpired, FindOrPrepend;
    if log != [] {
      var front, r := log[..|log| - 1], log[|log| - 1];
      AddressesStayDistinct(keepalive, front);
      var stamped := PeerInfo(r.address, r.stampedAt);
      FindOrPrependMembers(PeersAfter(keepalive, front), stamped);
      UnexpiredMembers(keepalive, r.expiredAt, FindOrPrepend(PeersAfter(keepalive, front), stamped));
    }
  }

  function Stamped(r: Registration): PeerInfo {
    PeerInfo(r.address, r.stampedAt)
  }

  /** No registration after the one at `k` is of the same address. */
  ghost predicate IsLatest(log: seq<Registration>, k: int) {
    0 <= k < |log| && forall j :: k < j < |log| ==> log[j].address != log[k].address
  }

  /** The registration at `k` was recent enough at its own expiry and at every later one. */
  ghost predicate Survives(keepalive: uint64, log: seq<Registration>, k: int)
    requires 0 <= k < |log|
  {
    forall m :: k <= m < |log| ==> !Expired(keepalive, log[m].expiredAt, Stamped(log[k]))
  }

  lemma LastRequest(keepalive: uint64, log: seq<Registration>, p: PeerInfo)
    requires log != []
    ensures var r := log[|log| - 1];
            p in PeersAfter(keepalive, log) <==>
            && (p == Stamped(r) || (p in PeersAfter(keepalive, log[..|log| - 1]) && p.address != r.address))
            && !Expired(keepalive, r.expiredAt, p)
  {
    hide Unexpired, FindOrPrepend, Expired;
    var before, r := PeersAfter(keepalive, log[..|log| - 1]), log[|log| - 1];
    AddressesStayDistinct(keepalive, log[..|log| - 1]);
    FindOrPrependMembers(before, Stamped(r));
    UnexpiredMembers(keepalive, r.expiredAt, FindOrPrepend(before, Stamped(r)));
  }

  /** The registration at `k` is `p`, is the latest of its address, and has survived. */
  ghost predicate Holds(keepalive: uint64, log: seq<Registration>, k: int, p: PeerInfo) {
    IsLatest(log, k) && Stamped(log[k]) == p && Survives(keepalive, log, k)
  }

  lemma HoldsAfterLast(keepalive: uint64, log: seq<Registration>, k: int, p: PeerInfo)
    requires log != []
    ensures var n := |log| - 1;
            Holds(keepalive, log, k, p) <==>
            && !Expired(keepalive, log[n].expiredAt, p)
            && if k == n then p == Stamped(log[n])
               else Holds(keepalive, log[..n], k, p) && p.address != log[n].address
  {
    hide Expired;
    var n := |log| - 1;
    if Holds(keepalive, log, k, p) {
      assert !Expired(keepalive, log[n].expiredAt, Stamped(log[k]));
    }
  }

  lemma HoldsWithin(keepalive: uint64, log: seq<Registration>, k: int, p: PeerInfo)
    requires Holds(keepalive, log, k, p)
    ensures 0 <= k < |log|
  {
  }

  /** After any run of requests, with any clock, the list holds exactly the latest registrations of
      their addresses that no expiry since has found too old. */
  lemma {:induction false} RegistryHoldsSurvivors(keepalive: uint64, log: seq<Registration>, p: PeerInfo)
    ensures p in PeersAfter(keepalive, log) <==> exists k :: Holds(keepalive, log, k, p)
  {
    if log != [] {
      hide PeersAfter, Holds, Expired;
      var n := |log| - 1;
      RegistryHoldsSurvivors(keepalive, log[..n], p);
      LastRequest(keepalive, log, p);
      HoldsAfterLast(keepalive, log, n, p);
      if p in PeersAfter(keepalive, log) && p != Stamped(log[n]) {
        var k :| Holds(keepalive, log[..n], k, p);
        HoldsAfterLast(keepalive, log, k, p);
        HoldsWithin(keepalive, log[..n], k, p);
      }
      if k :| Holds(keepalive, log, k, p) {
        HoldsAfterLast(keepalive, log, k, p);
      }
    }
  }

  /** The time of the last registration of `a`. */
  function Latest(log: seq<Registration>, a: Address): Option<int64> {
    if log == [] then
      None
    else if log[|log| - 1].address == a then
      Some(log[|log| - 1].stampedAt)
    else
      Latest(log[..|log| - 1], a)
  }

  /** At the last expiry, `p` is the latest registration of its address, and recent enough. */
  predicate Active(keepalive: uint64, log: seq<Registration>, p: PeerInfo)
    requires log != []
  {
    Latest(log, p.address) == Some(p.lastConnected) && !Expired(keepalive, log[|log| - 1].expiredAt, p)
  }

  lemma {:induction false} LatestIsLatest(log: seq<Registration>, a: Address, t: int64)
    ensures Latest(log, a) == Some(t) <==>
            exists k :: IsLatest(log, k) && log[k].address == a && log[k].stampedAt == t
  {
    if log != [] {
      var n := |log| - 1;
      var front := log[..n];
      LatestIsLatest(front, a, t);
      if log[n].address == a {
        assert IsLatest(log, n);
      } else {
        if k :| IsLatest(front, k) && front[k].address == a && front[k].stampedAt == t {
          assert IsLatest(log, k);
        }
        if k :| IsLatest(log, k) && log[k].address == a && log[k].stampedAt == t {
          assert IsLatest(front, k);
        }
      }
    }
  }

  /** Each address's latest registration that is recent enough at the last expiry was recent enough at
      every expiry since it was made. */
  ghost predicate NoneExpiredEarly(keepalive: uint64, log: seq<Registration>) {
    forall k :: IsLatest(log, k) && !Expired(keepalive, log[|log| - 1].expiredAt, Stamped(log[k])) ==>
      Survives(keepalive, log, k)
  }

  lemma ActiveIsLatest(keepalive: uint64, log: seq<Registration>, p: PeerInfo)
    requires log != []
    ensures Active(keepalive, log, p) <==>
            exists k :: IsLatest(log, k) && Stamped(log[k]) == p && !Expired(keepalive, log[|log| - 1].expiredAt, p)
  {
    hide Latest, Expired;
    LatestIsLatest(log, p.address, p.lastConnected);
  }

  /** The list holds exactly the active peers if and only if no expiry dropped one of them earlier. */
  lemma RegistryHoldsActivePeersIff(keepalive: uint64, log: seq<Registration>)
    requires log != []
    ensures (forall p :: p in PeersAfter(keepalive, log) <==> Active(keepalive, log, p)) <==>
            NoneExpiredEarly(keepalive, log)
  {
    hide PeersAfter, Active, Expired;
    forall p
      ensures p in PeersAfter(keepalive, log) <==> exists k :: Holds(keepalive, log, k, p)
      ensures Active(keepalive, log, p) <==>
              exists k :: IsLatest(log, k) && Stamped(log[k]) == p && !Expired(keepalive, log[|log| - 1].expiredAt, p)
    {
      RegistryHoldsSurvivors(keepalive, log, p);
      ActiveIsLatest(keepalive, log, p);
    }
    if forall p :: p in PeersAfter(keepalive, log) <==> Active(keepalive, log, p) {
      forall k | IsLatest(log, k) && !Expired(keepalive, log[|log| - 1].expiredAt, Stamped(log[k]))
        ensures Survives(keepalive, log, k)
      {
        assert Active(keepalive, log, Stamped(log[k]));
        var k' :| Holds(keepalive, log, k', Stamped(log[k]));
        assert k' == k;
      }
    }
    if NoneExpiredEarly(keepalive, log) {
      forall p
        ensures p in PeersAfter(keepalive, log) <==> Active(keepalive, log, p)
      {
        if k :| Holds(keepalive, log, k, p) {
          assert !Expired(keepalive, log[|log| - 1].expiredAt, p);
        }
        if k :| IsLatest(log, k) && Stamped(log[k]) == p && !Expired(keepalive, log[|log| - 1].expiredAt, p) {
          assert Holds(keepalive, log, k, p);
        }
      }
    }
  }

  /** The clock never goes back, from one reading to the next. */
  ghost predicate MonotoneClock(log: seq<Registration>) {
    && (forall i :: 0 <= i < |log| ==> log[i].stampedAt <= log[i].expiredAt)
    && (forall i, j :: 0 <= i < j < |log| ==> log[i].expiredAt <= log[j].stampedAt)
  }

  /** So with a clock that never goes back the list holds exactly the active peers, each once. */
  lemma RegistryHoldsActivePeers(keepalive: uint64, log: seq<Registration>)
    requires log != [] && MonotoneClock(log)
    ensures DistinctAddresses(PeersAfter(keepalive, log))
    ensures forall p :: p in PeersAfter(keepalive, log) <==> Active(keepalive, log, p)
  {
    hide PeersAfter, Latest;
    AddressesStayDistinct(keepalive, log);
    forall k, m | IsLatest(log, k) && !Expired(keepalive, log[|log| - 1].expiredAt, Stamped(log[k])) && k <= m < |log|
      ensures !Expired(keepalive, log[m].expiredAt, Stamped(log[k]))
    {
      assert log[m].expiredAt <= log[|log| - 1].expiredAt;
    }
    RegistryHoldsActivePeersIff(keepalive, log);
  }

  /** With a clock that goes back, the list can lack an active peer: one that expired at a later time. */
  lemma ClockGoingBackLosesPeers(a: Address, b: Address)
    requires a != b
    ensures var log := [Registration(a, 0, 0), Registration(b, 9, 9), Registration(b, 0, 0)];
            && PeerInfo(a, 0) !in PeersAfter(1_000_000, log)
            && Active(1_000_000, log, PeerInfo(a, 0))
  {
    hide Unexpired, FindOrPrepend;
    var log := [Registration(a, 0, 0), Registration(b, 9, 9), Registration(b, 0, 0)];
    var one, two := log[..1], log[..2];
    assert two[..1] == one && Latest(one, a) == Some(0);
    assert Latest(two, a) == Latest(one, a) && Latest(log, a) == Latest(two, a);
    RegistryHoldsActivePeers(1_000_000, two);
    FindOrPrependMembers(PeersAfter(1_000_000, two), PeerInfo(b, 0));
    UnexpiredMembers(1_000_000, 0, FindOrPrepend(PeersAfter(1_000_000, two), PeerInfo(b, 0)));
    assert PeersAfter(1_000_000, log) == Register(1_000_000, PeersAfter(1_000_000, two), log[2]);
  }
}
