/** The pool of known peers and its two time indexes, which must agree with it after every call. */
module PeerPool {

  datatype Endpoint = Endpoint(address: nat, port: nat)

  datatype State = Standby | Connecting | Connected

  /** What the pool knows about a peer; times are counts of the same clock. */
  datatype Info = Info(rtt: int, lastConnectTime: int, lastActiveTime: int, state: State, disconnectError: int)

  function NewInfo(now: int): Info {
    Info(-1, 0, now, Standby, 0)
  }

  const CONNECT_INTERVAL: int := 5000
  const EXPIRY: int := 5 * 60 * 1000

  predicate Expired(info: Info, now: int) {
    info.state != Connected && now - info.lastActiveTime > EXPIRY
  }

  /** The two indexes: standby peers by connect time, unconnected ones by active time. */
  datatype Order = ByConnectTime | ByActiveTime

  predicate Belongs(info: Info, order: Order) {
    if order == ByConnectTime then info.state == Standby else info.state != Connected
  }

  function TimeOf(info: Info, order: Order): int {
    if order == ByConnectTime then info.lastConnectTime else info.lastActiveTime
  }

  class PeerInfo {
    const endpoint: Endpoint
    var rtt: int
    var lastConnectTime: int
    var lastActiveTime: int
    var state: State
    var disconnectError: int

    ghost function Snapshot(): Info
      reads this
    {
      Info(rtt, lastConnectTime, lastActiveTime, state, disconnectError)
    }

    constructor (endpoint: Endpoint, now: int)
      ensures this.endpoint == endpoint && Snapshot() == NewInfo(now)
    {
      this.endpoint := endpoint;
      rtt, lastConnectTime, lastActiveTime, state, disconnectError := -1, 0, now, Standby, 0;
    }
  }

  /** A multimap from times to peers; of entries with equal times any may be the first. */
  type TimeIndex = multiset<(int, PeerInfo)>

  /** The peers that belong in an index, each at its present time. */
  ghost function Entries(infos: map<PeerInfo, Info>, order: Order): set<(int, PeerInfo)> {
    set p | p in infos && Belongs(infos[p], order) :: (TimeOf(infos[p], order), p)
  }

  /** An index that holds exactly those, each once. */
  ghost predicate Agrees(index: TimeIndex, order: Order, infos: map<PeerInfo, Info>) {
    index == multiset(Entries(infos, order))
  }

  lemma IsEntry(infos: map<PeerInfo, Info>, order: Order, e: (int, PeerInfo))
    ensures e in Entries(infos, order) <==> e.1 in infos && Belongs(infos[e.1], order) && e.0 == TimeOf(infos[e.1], order)
  {
  }

  lemma TakeOut(infos: map<PeerInfo, Info>, order: Order, p: PeerInfo)
    requires p in infos
    ensures Agrees(multiset(Entries(infos, order))[(TimeOf(infos[p], order), p) := 0], order, infos - {p})
  {
    var e := (TimeOf(infos[p], order), p);
    forall f ensures f in Entries(infos - {p}, order) <==> f in Entries(infos, order) && f != e {
      IsEntry(infos, order, f);
      IsEntry(infos - {p}, order, f);
    }
    assert Entries(infos - {p}, order) == Entries(infos, order) - {e};
  }

  lemma PutIn(infos: map<PeerInfo, Info>, order: Order, p: PeerInfo, info: Info)
    ensures var rest := multiset(Entries(infos - {p}, order));
            Agrees(if Belongs(info, order) then rest + multiset{(TimeOf(info, order), p)} else rest, order, infos[p := info])
  {
    var e := (TimeOf(info, order), p);
    IsEntry(infos - {p}, order, e);
    forall f ensures f in Entries(infos[p := info], order) <==>
                     f in Entries(infos - {p}, order) || (Belongs(info, order) && f == e) {
      IsEntry(infos[p := info], order, f);
      IsEntry(infos - {p}, order, f);
    }
    assert Entries(infos[p := info], order) == Entries(infos - {p}, order) + if Belongs(info, order) then {e} else {};
  }

  lemma {:induction false} EarliestExists(index: TimeIndex)
    requires index != multiset{}
    ensures exists e :: e in index && forall f :: f in index ==> e.0 <= f.0
    decreases |index|
  {
    var d :| d in index;
    var others := index[d := 0];
    if others != multiset{} {
      EarliestExists(others);
      var e :| e in others && forall f :: f in others ==> e.0 <= f.0;
      var first := if d.0 <= e.0 then d else e;
      assert first in index && forall f :: f in index ==> first.0 <= f.0 by {
        assert forall f :: f in index ==> f == d || f in others;
      }
    } else {
      assert forall f :: f in index ==> f == d || f in others;
    }
  }

  method Earliest(index: TimeIndex) returns (e: (int, PeerInfo))
    requires index != multiset{}
    ensures e in index && forall f :: f in index ==> e.0 <= f.0
  {
    EarliestExists(index);
    e :| e in index && forall f :: f in index ==> e.0 <= f.0;
  }

  /** An index is no larger than the pool. */
  lemma IndexIsSmall(index: TimeIndex, order: Order, infos: map<PeerInfo, Info>, peers: map<Endpoint, PeerInfo>)
    requires Agrees(index, order, infos)
    requires forall p :: p in infos ==> p.endpoint in peers && peers[p.endpoint] == p
    ensures |index| <= |peers|
  {
    forall e | e in Entries(infos, order) ensures e.1 in infos && e.0 == TimeOf(infos[e.1], order) {
      IsEntry(infos, order, e);
    }
    EntriesAreFew(Entries(infos, order), peers);
  }

  lemma {:induction false} EntriesAreFew(entries: set<(int, PeerInfo)>, peers: map<Endpoint, PeerInfo>)
    requires forall e :: e in entries ==> e.1.endpoint in peers && peers[e.1.endpoint] == e.1
    requires forall e, f :: e in entries && f in entries && e.1 == f.1 ==> e == f
    ensures |entries| <= |peers|
    decreases |entries|
  {
    if entries != {} {
      var e :| e in entries;
      var others, rest := entries - {e}, peers - {e.1.endpoint};
      forall f | f in others ensures f.1.endpoint in rest && rest[f.1.endpoint] == f.1 {
        assert peers[f.1.endpoint] == f.1 && peers[e.1.endpoint] == e.1;
      }
      EntriesAreFew(others, rest);
      assert rest.Keys == peers.Keys - {e.1.endpoint};
      assert |rest.Keys| == |peers.Keys| - 1;
    }
  }

  /** A peer at an invalid endpoint is never tried or connected, so all that changes of it is when it was heard of. */
  predicate MayBe(ep: Endpoint, info: Info, isValidEndPoint: Endpoint -> bool) {
    isValidEndPoint(ep) || info == NewInfo(info.lastActiveTime)
  }

  predicate InvalidUntried(infos: map<PeerInfo, Info>, isValidEndPoint: Endpoint -> bool) {
    forall p :: p in infos ==> MayBe(p.endpoint, infos[p], isValidEndPoint)
  }

  predicate AllValid(peers: map<Endpoint, PeerInfo>, isValidEndPoint: Endpoint -> bool) {
    forall ep :: ep in peers ==> isValidEndPoint(ep)
  }

  lemma ValidWith(peers: map<Endpoint, PeerInfo>, ep: Endpoint, p: PeerInfo, isValidEndPoint: Endpoint -> bool)
    ensures AllValid(peers[ep := p], isValidEndPoint) <==> AllValid(peers, isValidEndPoint) && isValidEndPoint(ep)
  {
  }

  lemma SmallerWithout(infos: map<PeerInfo, Info>, p: PeerInfo)
    requires p in infos
    ensures |infos - {p}| < |infos|
  {
    assert infos.Keys == (infos - {p}).Keys + {p};
  }

  /** All that changes is that `p` has been heard of now, maybe for the first time. */
  ghost predicate Heard(p: PeerInfo, infos: map<PeerInfo, Info>, infos': map<PeerInfo, Info>, now: int) {
    infos' == infos[p := if p in infos then infos[p].(lastActiveTime := now) else NewInfo(now)]
  }

  datatype Offer = Nobody | AssertionFails | Peer(endpoint: Endpoint)

  lemma Replaced(infos: map<PeerInfo, Info>, p: PeerInfo, info: Info)
    ensures infos[p := info] - {p} == infos - {p}
  {
  }

  lemma NothingIn(infos: map<PeerInfo, Info>, order: Order)
    requires multiset(Entries(infos, order)) == multiset{}
    ensures forall p :: p in infos ==> !Belongs(infos[p], order)
  {
    forall p | p in infos ensures !Belongs(infos[p], order) {
      var e := (TimeOf(infos[p], order), p);
      IsEntry(infos, order, e);
      assert e !in multiset(Entries(infos, order));
    }
  }

  lemma EarliestEntry(infos: map<PeerInfo, Info>, order: Order, e: (int, PeerInfo))
    requires e in Entries(infos, order)
    requires forall f :: f in Entries(infos, order) ==> e.0 <= f.0
    ensures e.1 in infos && Belongs(infos[e.1], order) && e.0 == TimeOf(infos[e.1], order)
    ensures forall p :: p in infos && Belongs(infos[p], order) ==> e.0 <= TimeOf(infos[p], order)
  {
    IsEntry(infos, order, e);
    forall p | p in infos && Belongs(infos[p], order) ensures e.0 <= TimeOf(infos[p], order) {
      IsEntry(infos, order, (TimeOf(infos[p], order), p));
    }
  }

  class Pool {
    const isSelf: Endpoint -> bool
    const isValidEndPoint: Endpoint -> bool
    var peers: map<Endpoint, PeerInfo>
    var connectionPool: TimeIndex
    var expiringPool: TimeIndex

    /** The peers of the pool with their present fields. */
    ghost var infos: map<PeerInfo, Info>

    ghost predicate Valid()
      reads this, infos.Keys
    {
      && (forall ep :: ep in peers ==> peers[ep] in infos && peers[ep].endpoint == ep)
      && (forall p :: p in infos ==> p.endpoint in peers && peers[p.endpoint] == p && infos[p] == p.Snapshot())
      && Agrees(connectionPool, ByConnectTime, infos)
      && Agrees(expiringPool, ByActiveTime, infos)
      && InvalidUntried(infos, isValidEndPoint)
    }

    /** The same while `item` is out of both indexes, its fields free to change. */
    ghost predicate Updating(item: PeerInfo)
      reads this, infos.Keys - {item}
    {
      && item.endpoint in peers && peers[item.endpoint] == item
      && (forall ep :: ep in peers ==> (peers[ep] == item || peers[ep] in infos) && peers[ep].endpoint == ep)
      && (forall p :: p in infos && p != item ==> p.endpoint in peers && peers[p.endpoint] == p && infos[p] == p.Snapshot())
      && Agrees(connectionPool, ByConnectTime, infos - {item})
      && Agrees(expiringPool, ByActiveTime, infos - {item})
      && InvalidUntried(infos - {item}, isValidEndPoint)
    }

    /** What was known of a peer before a call at time `now` that may have made it. */
    ghost function Before(ep: Endpoint, now: int, peers: map<Endpoint, PeerInfo>, infos: map<PeerInfo, Info>): Info {
      if ep in peers && peers[ep] in infos then infos[peers[ep]] else NewInfo(now)
    }

    /** Since then nothing changed but the peer at `ep`, which is now there. */
    ghost predicate Updated(ep: Endpoint, now: int, peers': map<Endpoint, PeerInfo>, infos': map<PeerInfo, Info>)
      reads this
    {
      && ep in peers && peers == peers'[ep := peers[ep]] && (ep in peers' ==> peers'[ep] == peers[ep])
      && peers[ep] in infos && infos - {peers[ep]} == infos' - {peers[ep]}
    }

    constructor (isSelf: Endpoint -> bool, isValidEndPoint: Endpoint -> bool)
      ensures Valid() && peers == map[] && infos == map[]
      ensures this.isSelf == isSelf && this.isValidEndPoint == isValidEndPoint
    {
      this.isSelf, this.isValidEndPoint := isSelf, isValidEndPoint;
      peers, connectionPool, expiringPool, infos := map[], multiset{}, multiset{}, map[];
    }

    /** Take a peer out of both indexes, wherever its present times say it is. */
    method RemovePeerMap(item: PeerInfo)
      requires Agrees(connectionPool, ByConnectTime, infos) && Agrees(expiringPool, ByActiveTime, infos)
      requires item in infos && infos[item] == item.Snapshot()
      modifies this`connectionPool, this`expiringPool
      ensures Agrees(connectionPool, ByConnectTime, infos - {item}) && Agrees(expiringPool, ByActiveTime, infos - {item})
    {
      TakeOut(infos, ByConnectTime, item);
      TakeOut(infos, ByActiveTime, item);
      expiringPool := expiringPool[(item.lastActiveTime, item) := 0];
      connectionPool := connectionPool[(item.lastConnectTime, item) := 0];
    }

    /** Put a peer into the indexes it belongs in, at its present times. */
    method AddPeerMap(item: PeerInfo)
      requires Agrees(connectionPool, ByConnectTime, infos - {item})
      requires Agrees(expiringPool, ByActiveTime, infos - {item})
      modifies this`connectionPool, this`expiringPool
      ensures Agrees(connectionPool, ByConnectTime, infos[item := item.Snapshot()])
      ensures Agrees(expiringPool, ByActiveTime, infos[item := item.Snapshot()])
    {
      PutIn(infos, ByConnectTime, item, item.Snapshot());
      PutIn(infos, ByActiveTime, item, item.Snapshot());
      if item.state == Standby {
        connectionPool := connectionPool + multiset{(item.lastConnectTime, item)};
      }
      if item.state != Connected {
        expiringPool := expiringPool + multiset{(item.lastActiveTime, item)};
      }
    }

    /** What an updater does when it starts. */
    method BeginUpdate(item: PeerInfo)
      requires Valid() && item in infos
      modifies this`connectionPool, this`expiringPool
      ensures Updating(item)
    {
      RemovePeerMap(item);
    }

    /** What it does when it ends. */
    method EndUpdate(item: PeerInfo)
      requires Updating(item) && MayBe(item.endpoint, item.Snapshot(), isValidEndPoint)
      modifies this`connectionPool, this`expiringPool, this`infos
      ensures Valid() && infos == old(infos)[item := item.Snapshot()]
      ensures infos - {item} == old(infos) - {item}
    {
      AddPeerMap(item);
      Replaced(infos, item, item.Snapshot());
      infos := infos[item := item.Snapshot()];
    }

    /** A peer that was not known, in no index yet. */
    method NewPeer(ep: Endpoint, now: int) returns (item: PeerInfo)
      requires Valid() && ep !in peers
      modifies this`peers
      ensures fresh(item) && Updating(item)
      ensures item.endpoint == ep && item.Snapshot() == NewInfo(now) && peers == old(peers)[ep := item]
    {
      item := new PeerInfo(ep, now);
      peers := peers[ep := item];
      assert infos - {item} == infos;
    }

    /** The peer with this endpoint, made on the spot if it is not known yet. */
    method FindPeer(ep: Endpoint, now: int) returns (item: PeerInfo)
      requires Valid() && isValidEndPoint(ep)
      modifies this
      ensures Valid() && item in infos && peers == old(peers)[ep := item]
      ensures if ep in old(peers) then item == old(peers)[ep] && infos == old(infos)
              else fresh(item) && infos == old(infos)[item := Info(-1, 0, now, Standby, 0)]
      ensures infos - {item} == old(infos) - {item} && item.Snapshot() == Before(ep, now, old(peers), old(infos))
    {
      if ep in peers {
        item := peers[ep];
      } else {
        item := NewPeer(ep, now);
        EndUpdate(item);
      }
    }

    /** How the setters start: the peer is looked up, or made, and taken out of the indexes. */
    method FindAndBeginUpdate(ep: Endpoint, now: int) returns (item: PeerInfo)
      requires Valid() && isValidEndPoint(ep)
      modifies this
      ensures Updating(item) && item.endpoint == ep && (item in old(infos) || fresh(item))
      ensures peers == old(peers)[ep := item] && (ep in old(peers) ==> item == old(peers)[ep])
      ensures infos - {item} == old(infos) - {item}
      ensures item.Snapshot() == Before(ep, now, old(peers), old(infos))
    {
      item := FindPeer(ep, now);
      BeginUpdate(item);
    }

    method DoAddPeer(ep: Endpoint, now: int)
      requires Valid()
      modifies this, infos.Keys
      ensures Valid()
      ensures isSelf(ep) ==> peers == old(peers) && infos == old(infos)
      ensures !isSelf(ep) ==>
                && ep in peers && peers == old(peers)[ep := peers[ep]]
                && Heard(peers[ep], old(infos), infos, now)
                && if ep in old(peers) then peers[ep] == old(peers)[ep] else fresh(peers[ep])
      ensures AllValidEndPoints() <==> old(AllValidEndPoints()) && (isSelf(ep) || isValidEndPoint(ep))
    {
      if isSelf(ep) {
        return;
      }
      var item := BeginHeard(ep, now);
      EndHeard(item, now);
      ValidWith(old(peers), ep, item, isValidEndPoint);
    }

    /** The start of it: the peer, known or made, is out of the indexes. */
    method BeginHeard(ep: Endpoint, now: int) returns (item: PeerInfo)
      requires Valid()
      modifies this`peers, this`connectionPool, this`expiringPool
      ensures Updating(item) && item.endpoint == ep && MayBe(ep, item.Snapshot(), isValidEndPoint)
      ensures peers == old(peers)[ep := item]
      ensures if ep in old(peers) then item == old(peers)[ep] && item in infos && item.Snapshot() == infos[item]
              else fresh(item) && item.Snapshot() == NewInfo(now)
    {
      if ep !in peers {
        item := NewPeer(ep, now);
      } else {
        item := peers[ep];
        BeginUpdate(item);
      }
    }

    /** The end of it: heard of just now, and back into the indexes. */
    method EndHeard(item: PeerInfo, now: int)
      requires Updating(item) && MayBe(item.endpoint, item.Snapshot(), isValidEndPoint)
      modifies this`connectionPool, this`expiringPool, this`infos, item`lastActiveTime
      ensures Valid() && infos == old(infos)[item := old(item.Snapshot()).(lastActiveTime := now)]
    {
      item.lastActiveTime := now;
      EndUpdate(item);
    }

    /** A standby peer that no other has waited longer than. */
    ghost predicate IsNext(p: PeerInfo)
      reads this
    {
      && p in infos && infos[p].state == Standby
      && forall q :: q in infos && infos[q].state == Standby ==> infos[p].lastConnectTime <= infos[q].lastConnectTime
    }

    ghost predicate AllValidEndPoints()
      reads this
    {
      AllValid(peers, isValidEndPoint)
    }

    /** A standby peer that has not been tried for a while; the code asserts that its endpoint is valid. */
    method GetConnectionPeer(now: int) returns (r: Offer)
      requires Valid()
      modifies this, infos.Keys
      ensures Valid() && peers == old(peers)
      ensures r.Peer? ==>
                && r.endpoint in peers && old(IsNext(peers[r.endpoint])) && isValidEndPoint(r.endpoint)
                && now - old(infos[peers[r.endpoint]]).lastConnectTime >= 5000
                && infos == old(infos)[peers[r.endpoint] := old(infos[peers[r.endpoint]]).(lastConnectTime := now)]
      ensures !r.Peer? ==> infos == old(infos)
      ensures r == AssertionFails ==> old(exists p :: IsNext(p) && !isValidEndPoint(p.endpoint))
      ensures old((exists p :: IsNext(p)) && forall p :: IsNext(p) ==> !isValidEndPoint(p.endpoint)) ==> r == AssertionFails
      ensures r == Nobody ==> forall p :: p in infos && infos[p].state == Standby
                                          ==> now - infos[p].lastConnectTime < 5000
      ensures r == Nobody ==> (forall p :: p in infos ==> infos[p].state != Standby)
                              || exists p :: IsNext(p) && isValidEndPoint(p.endpoint)
      ensures AllValidEndPoints() ==> r != AssertionFails
    {
      if connectionPool == multiset{} {
        NothingIn(infos, ByConnectTime);
        return Nobody;
      }
      var first := Earliest(connectionPool);
      EarliestEntry(infos, ByConnectTime, first);
      var item := first.1;
      if !isValidEndPoint(item.endpoint) {
        return AssertionFails;
      }
      if now - item.lastConnectTime < CONNECT_INTERVAL {
        return Nobody;
      }
      MarkTried(item, now);
      return Peer(item.endpoint);
    }

    method MarkTried(item: PeerInfo, now: int)
      requires Valid() && item in infos && isValidEndPoint(item.endpoint)
      modifies this`connectionPool, this`expiringPool, this`infos, item
      ensures Valid() && infos == old(infos)[item := old(infos[item]).(lastConnectTime := now)]
    {
      BeginUpdate(item);
      item.lastConnectTime := now;
      EndUpdate(item);
    }

    method SetPeerConnecting(ep: Endpoint, now: int)
      requires Valid() && isValidEndPoint(ep)
      modifies this, infos.Keys
      ensures Valid() && Updated(ep, now, old(peers), old(infos))
      ensures infos[peers[ep]] == Before(ep, now, old(peers), old(infos)).(state := Connecting)
      ensures AllValidEndPoints() <==> old(AllValidEndPoints())
    {
      var item := FindAndBeginUpdate(ep, now);
      item.state := Connecting;
      EndUpdate(item);
    }

    method SetPeerConnected(ep: Endpoint, rtt: int, now: int)
      requires Valid()
      modifies this, infos.Keys
      ensures Valid()
      ensures !isValidEndPoint(ep) ==> peers == old(peers) && infos == old(infos)
      ensures isValidEndPoint(ep) ==>
                && Updated(ep, now, old(peers), old(infos))
                && infos[peers[ep]] == Before(ep, now, old(peers), old(infos)).(state := Connected, rtt := rtt)
      ensures AllValidEndPoints() <==> old(AllValidEndPoints())
    {
      if !isValidEndPoint(ep) {
        return;
      }
      var item := FindAndBeginUpdate(ep, now);
      item.state := Connected;
      item.rtt := rtt;
      EndUpdate(item);
    }

    method SetPeerDisconnected(ep: Endpoint, errcode: int, connected: bool, now: int)
      requires Valid()
      modifies this, infos.Keys
      ensures Valid()
      ensures !isValidEndPoint(ep) ==> peers == old(peers) && infos == old(infos)
      ensures isValidEndPoint(ep) ==>
                && Updated(ep, now, old(peers), old(infos))
                && var before := Before(ep, now, old(peers), old(infos));
                   infos[peers[ep]] == before.(state := Standby, disconnectError := errcode,
                                               lastActiveTime := if connected then now else before.lastActiveTime)
      ensures AllValidEndPoints() <==> old(AllValidEndPoints())
    {
      if !isValidEndPoint(ep) {
        return;
      }
      var item := FindAndBeginUpdate(ep, now);
      EndDisconnected(item, errcode, connected, now);
    }

    /** The end of it: the new fields, and back into the indexes. */
    method EndDisconnected(item: PeerInfo, errcode: int, connected: bool, now: int)
      requires Updating(item) && isValidEndPoint(item.endpoint)
      modifies this`connectionPool, this`expiringPool, this`infos, item
      ensures Valid() && infos - {item} == old(infos) - {item} && item in infos
      ensures var before := old(item.Snapshot());
              infos[item] == before.(state := Standby, disconnectError := errcode,
                                     lastActiveTime := if connected then now else before.lastActiveTime)
    {
      item.state := Standby;
      item.disconnectError := errcode;
      if connected {
        item.lastActiveTime := now;
      }
      EndUpdate(item);
    }

    /** Long unheard-of peers leave the pool, oldest first; connected ones never do. */
    method RemoveExpired(now: int)
      requires Valid()
      modifies this
      ensures Valid()
      ensures infos == map p | p in old(infos) && !Expired(old(infos)[p], now) :: old(infos)[p]
      ensures forall p :: p in old(infos) ==>
                (p in infos <==> old(infos)[p].state == Connected || now - old(infos)[p].lastActiveTime <= 300_000)
      ensures forall ep :: ep in peers ==> ep in old(peers) && peers[ep] == old(peers)[ep]
      ensures |connectionPool| <= |peers| && |expiringPool| <= |peers|
      ensures old(AllValidEndPoints()) ==> AllValidEndPoints()
    {
      var more := true;
      while more
        invariant Valid()
        invariant infos.Keys <= old(infos).Keys && forall p :: p in infos ==> infos[p] == old(infos)[p]
        invariant forall p :: p in old(infos) && p !in infos ==> Expired(old(infos)[p], now)
        invariant forall ep :: ep in peers ==> ep in old(peers) && peers[ep] == old(peers)[ep]
        invariant !more ==> forall p :: p in infos ==> !Expired(infos[p], now)
        decreases if more then |infos| + 1 else 0
      {
        more := ExpireOne(now);
      }
      IndexIsSmall(connectionPool, ByConnectTime, infos, peers);
      IndexIsSmall(expiringPool, ByActiveTime, infos, peers);
    }

    /** Remove the peer heard of longest ago if that is too long. */
    method ExpireOne(now: int) returns (erased: bool)
      requires Valid()
      modifies this
      ensures Valid()
      ensures erased ==> exists p :: p in old(infos) && Expired(old(infos)[p], now)
                                     && infos == old(infos) - {p} && peers == old(peers) - {p.endpoint}
      ensures erased ==> |infos| < |old(infos)|
      ensures !erased ==> infos == old(infos) && peers == old(peers) && forall p :: p in infos ==> !Expired(infos[p], now)
    {
      if expiringPool == multiset{} {
        NothingIn(infos, ByActiveTime);
        return false;
      }
      var first := Earliest(expiringPool);
      EarliestEntry(infos, ByActiveTime, first);
      var ptr := first.1;
      if now - ptr.lastActiveTime <= EXPIRY {
        return false;
      }
      Drop(ptr);
      SmallerWithout(old(infos), ptr);
      return true;
    }

    /** Out of the map and out of both indexes. */
    method Drop(ptr: PeerInfo)
      requires Valid() && ptr in infos
      modifies this
      ensures Valid() && infos == old(infos) - {ptr} && peers == old(peers) - {ptr.endpoint}
    {
      peers := peers - {ptr.endpoint};
      RemovePeerMap(ptr);
      infos := infos - {ptr};
    }

    /** Peers that may still be offered before those at invalid endpoints are next. */
    ghost function Untried(): set<PeerInfo>
      reads this
    {
      set p | p in infos && infos[p].state == Standby && infos[p].lastConnectTime <= 0 && isValidEndPoint(p.endpoint)
    }

    /** While a peer at an invalid endpoint is in the pool, every offer uses up an untried peer or fails. */
    method OfferBesideInvalid(bad: PeerInfo, now: int) returns (r: Offer)
      requires Valid() && bad in infos && !isValidEndPoint(bad.endpoint) && now >= CONNECT_INTERVAL
      modifies this, infos.Keys
      ensures Valid() && infos.Keys == old(infos.Keys)
      ensures r == AssertionFails || (r.Peer? && |Untried()| < |old(Untried())|)
      ensures old(Untried()) == {} ==> r == AssertionFails
    {
      ghost var before, untried := infos, Untried();
      assert MayBe(bad.endpoint, infos[bad], isValidEndPoint);
      r := GetConnectionPeer(now);
      if r.Peer? {
        ghost var p := peers[r.endpoint];
        assert before[p].lastConnectTime <= before[bad].lastConnectTime;
        assert p in untried && Untried() == untried - {p};
      }
    }

    /** The failure is inevitable unless the peer expires first: at most one offer for each untried peer comes before it. */
    method OffersRunIntoInvalid(bad: PeerInfo, clock: nat -> int, past: nat) returns (calls: nat, r: Offer)
      requires Valid() && bad in infos && !isValidEndPoint(bad.endpoint)
      requires forall i: nat :: clock(i) >= CONNECT_INTERVAL
      modifies this, infos.Keys
      ensures r == AssertionFails && calls <= |old(Untried())|
      decreases |Untried()|
    {
      calls := 0;
      r := OfferBesideInvalid(bad, clock(past));
      if r != AssertionFails {
        var more;
        more, r := OffersRunIntoInvalid(bad, clock, past + 1);
        calls := more + 1;
      }
    }
  }

  /** Adding does not check the endpoint, so one bad address is enough to trip the assertion. */
  method UncheckedPeerTripsAssertion(isSelf: Endpoint -> bool, isValid: Endpoint -> bool, ep: Endpoint, now: int)
    returns (r: Offer)
    requires !isSelf(ep) && !isValid(ep)
    ensures r == AssertionFails
  {
    var pool := new Pool(isSelf, isValid);
    pool.DoAddPeer(ep, now);
    assert pool.peers[ep] in pool.infos;
    r := pool.GetConnectionPeer(now);
  }
}
