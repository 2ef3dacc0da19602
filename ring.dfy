/** Ring state and routing. A peer's view of the ring is its own reference, its
    successor and its predecessor; `Decide` is the branch structure of the peer's
    `FindSuccessor`, and `Route` follows the forwarding from peer to peer with every
    remote call taken as a direct evaluation at the addressed peer. Identifiers are
    compared linearly, exactly as the `uint32` comparisons of the peer code do. */
module Ring {
  import opened Common
  import opened Fnv

  /** `Peer{Id, Ip, Port}`: a reference to a peer. */
  datatype PeerRef = PeerRef(id: uint32, ip: Bytes, port: Bytes)

  /** The dial string `Ip + ":" + Port`. */
  function Address(p: PeerRef): Bytes {
    p.ip + [Colon] + p.port
  }

  /** What one peer knows of the ring: `Me`, `Succ`, `Pred`. */
  datatype RingView = RingView(me: PeerRef, succ: PeerRef, pred: PeerRef)

  /** The peer believes it is the only member of the ring. */
  predicate Alone(v: RingView) {
    v.succ.id == v.me.id
  }

  /** The four branches of `FindSuccessor`: answer with itself, answer with the
      successor, forward to the successor, or report that no peer was found. */
  datatype Decision = Self | Successor | Forward | NotFound

  function Decide(v: RingView, id: uint32): (d: Decision)
    ensures d != NotFound
    ensures d == Self <==> v.pred.id != v.me.id && v.pred.id < id <= v.me.id
    ensures d == Successor ==> (v.me.id < id <= v.succ.id) || Alone(v)
    ensures d == Forward <==>
      !Alone(v) && !(v.pred.id != v.me.id && v.pred.id < id <= v.me.id) && !(v.me.id < id <= v.succ.id)
  {
    if v.pred.id != v.me.id && id > v.pred.id && id <= v.me.id then Self
    else if (id > v.me.id && id <= v.succ.id) || v.succ.id == v.me.id then Successor
    else if v.succ.id != v.me.id then Forward
    else NotFound
  }

  /** The outcome of a lookup: the owner found, a peer that could not be dialled,
      the error branch of `FindSuccessor`, or the hop budget used up. */
  datatype Lookup = Found(owner: PeerRef) | Unreachable(address: Bytes) | NoOwner | HopsExhausted

  /** `FindSuccessor(id)` asked of the peer at address `at`, with at most `hops`
      peers consulted. `views` maps each address to the view of the peer serving it. */
  function Route(views: map<Bytes, RingView>, at: Bytes, id: uint32, hops: nat): (r: Lookup)
    ensures r != NoOwner
    ensures r.Found? ==>
      id <= r.owner.id || exists a :: a in views && Alone(views[a]) && r.owner == views[a].succ
    decreases hops
  {
    if hops == 0 then HopsExhausted
    else if at !in views then Unreachable(at)
    else
      var v := views[at];
      match Decide(v, id)
      case Self => Found(v.me)
      case Successor => Found(v.succ)
      case Forward => Route(views, Address(v.succ), id, hops - 1)
      case NotFound => NoOwner
  }

  // ----- Consistent rings -----

  /** Identifiers strictly increasing along the sequence. */
  ghost predicate Sorted(ring: seq<PeerRef>) {
    forall i, j :: 0 <= i < j < |ring| ==> Below(ring, i, j)
  }

  /** The peer at position `i` has a smaller id than the peer at `j`. */
  ghost predicate Below(ring: seq<PeerRef>, i: nat, j: nat)
    requires i < |ring| && j < |ring|
  {
    ring[i].id < ring[j].id
  }

  function Next(n: nat, j: nat): nat
    requires j < n
  {
    if j + 1 == n then 0 else j + 1
  }

  function Prev(n: nat, j: nat): nat
    requires j < n
  {
    if j == 0 then n - 1 else j - 1
  }

  /** The peers of `ring`, in increasing id order, each serve their own address and
      point to their true neighbours, the largest wrapping round to the smallest. */
  ghost predicate ConsistentRing(views: map<Bytes, RingView>, ring: seq<PeerRef>) {
    && |ring| >= 1
    && Sorted(ring)
    && forall j :: 0 <= j < |ring| ==> Linked(views, ring, j)
  }

  /** The peer at position `j` serves its address with its true neighbours. */
  ghost predicate Linked(views: map<Bytes, RingView>, ring: seq<PeerRef>, j: nat)
    requires j < |ring|
  {
    Address(ring[j]) in views &&
    views[Address(ring[j])] == RingView(ring[j], ring[Next(|ring|, j)], ring[Prev(|ring|, j)])
  }

  /** The position of the peer with the smallest id at least `k`. */
  function OwnerIndex(ring: seq<PeerRef>, k: uint32): (o: nat)
    requires |ring| > 0 && k <= ring[|ring| - 1].id
    ensures o < |ring| && k <= ring[o].id
    ensures forall i :: 0 <= i < o ==> ring[i].id < k
    decreases |ring|
  {
    if k <= ring[0].id then 0 else 1 + OwnerIndex(ring[1..], k)
  }

  /** On a consistent ring of two or more peers and a key in the non-wrapping range,
      the owner answers itself, its predecessor answers with it, and every other
      peer forwards. */
  lemma DecideOnRing(views: map<Bytes, RingView>, ring: seq<PeerRef>, k: uint32, j: nat)
    requires ConsistentRing(views, ring) && |ring| >= 2
    requires ring[0].id < k <= ring[|ring| - 1].id
    requires j < |ring|
    ensures Linked(views, ring, j)
    ensures var o := OwnerIndex(ring, k);
      var d := Decide(views[Address(ring[j])], k);
      1 <= o
      && (j == o ==> d == Self)
      && (j + 1 == o ==> d == Successor)
      && (j != o && j + 1 != o ==> d == Forward)
  {
    var n := |ring|;
    var o := OwnerIndex(ring, k);
    assert Linked(views, ring, j);
    assert Below(ring, 0, n - 1);
    if j > 0 {
      assert Below(ring, j - 1, j);
    }
    if j + 1 < n {
      assert Below(ring, j, j + 1);
    }
    if j > o + 1 {
      assert Below(ring, o, j - 1);
    }
  }

  /** How many times the peer at `j` forwards, successor by successor, before the
      lookup reaches the position just before `o`. */
  function Gap(n: nat, o: nat, j: nat): nat
    requires 1 <= o < n && j < n && j != o
  {
    if j < o then o - 1 - j else o - 1 + n - j
  }

  /** Forwarding from any peer other than the owner reaches the owner's predecessor,
      which answers with the owner. */
  lemma {:induction false} RouteChain(views: map<Bytes, RingView>, ring: seq<PeerRef>, k: uint32, j: nat, hops: nat)
    requires ConsistentRing(views, ring) && |ring| >= 2
    requires ring[0].id < k <= ring[|ring| - 1].id
    requires j < |ring| && j != OwnerIndex(ring, k)
    requires hops > Gap(|ring|, OwnerIndex(ring, k), j)
    ensures Route(views, Address(ring[j]), k, hops) == Found(ring[OwnerIndex(ring, k)])
    decreases hops
  {
    var n := |ring|;
    var o := OwnerIndex(ring, k);
    DecideOnRing(views, ring, k, j);
    if j + 1 != o {
      var j' := Next(n, j);
      RouteChain(views, ring, k, j', hops - 1);
    }
  }

  /** Routing on a consistent ring: for every key strictly above the smallest id and
      at most the largest, a lookup started at any member ends, within as many hops
      as there are peers, at the peer with the smallest id at least the key. */
  lemma RouteOnConsistentRing(views: map<Bytes, RingView>, ring: seq<PeerRef>, k: uint32, j: nat, hops: nat)
    requires ConsistentRing(views, ring) && |ring| >= 2
    requires ring[0].id < k <= ring[|ring| - 1].id
    requires j < |ring| && hops >= |ring|
    ensures Route(views, Address(ring[j]), k, hops) == Found(ring[OwnerIndex(ring, k)])
  {
    if j == OwnerIndex(ring, k) {
      DecideOnRing(views, ring, k, j);
    } else {
      RouteChain(views, ring, k, j, hops);
    }
  }

  // ----- Joining -----

  /** The views after `x` joins with `owner` as its successor: `x` points to `owner`
      and to `owner`'s predecessor, `owner` takes `x` as its predecessor, and that
      predecessor takes `x` as its successor; every other peer keeps its view. */
  function Joined(views: map<Bytes, RingView>, x: PeerRef, owner: PeerRef): (joined: map<Bytes, RingView>)
    requires Address(owner) in views && Address(views[Address(owner)].pred) in views
    requires Address(x) != Address(owner) && Address(x) != Address(views[Address(owner)].pred)
    ensures joined.Keys == views.Keys + {Address(x)}
    ensures joined[Address(x)] == RingView(x, owner, views[Address(owner)].pred)
    ensures var y, p := Address(owner), Address(views[Address(owner)].pred);
      && (y != p ==> joined[y] == views[y].(pred := x) && joined[p] == views[p].(succ := x))
      && (y == p ==> joined[y] == views[y].(pred := x, succ := x))
      && forall a :: a in views && a != Address(x) && a != y && a != p ==> joined[a] == views[a]
  {
    var y := Address(owner);
    var p := Address(views[y].pred);
    var linked := views[Address(x) := RingView(x, owner, views[y].pred)][y := views[y].(pred := x)];
    linked[p := linked[p].(succ := x)]
  }

  /** The reference carries the id its peer computed at start-up: the hash of the
      address it is dialled at. Every reference a peer holds is a copy of some
      peer's `Me`, so every reference has this form. */
  predicate Addressed(r: PeerRef) {
    r.id == Hash(Address(r))
  }

  /** Every reference in every view is `Addressed`. */
  predicate WellAddressed(views: map<Bytes, RingView>) {
    forall a :: a in views ==> Addressed(views[a].me) && Addressed(views[a].succ) && Addressed(views[a].pred)
  }

  /** A lookup on `WellAddressed` views answers with an `Addressed` reference. */
  lemma {:induction false} RouteAddressed(views: map<Bytes, RingView>, at: Bytes, id: uint32, hops: nat)
    requires WellAddressed(views)
    ensures Route(views, at, id, hops).Found? ==> Addressed(Route(views, at, id, hops).owner)
    decreases hops
  {
    if hops > 0 && at in views && Decide(views[at], id) == Forward {
      RouteAddressed(views, Address(views[at].succ), id, hops - 1);
    }
  }

  /** A join copies references it already has and the joiner's own, so the views
      stay `WellAddressed`. */
  lemma JoinedWellAddressed(views: map<Bytes, RingView>, x: PeerRef, owner: PeerRef)
    requires Address(owner) in views && Address(views[Address(owner)].pred) in views
    requires Address(x) != Address(owner) && Address(x) != Address(views[Address(owner)].pred)
    requires WellAddressed(views) && Addressed(x) && Addressed(owner)
    ensures WellAddressed(Joined(views, x, owner))
  {
    var joined := Joined(views, x, owner);
    var y, p := Address(owner), Address(views[Address(owner)].pred);
    forall a | a in joined
      ensures Addressed(joined[a].me) && Addressed(joined[a].succ) && Addressed(joined[a].pred)
    {
      if a == Address(x) {
        assert joined[a] == RingView(x, owner, views[y].pred);
      } else if a == y || a == p {
        assert Addressed(views[a].me) && Addressed(views[a].succ) && Addressed(views[a].pred);
      } else {
        assert joined[a] == views[a];
      }
    }
  }

  /** `ring` with `x` placed at position `o`. */
  function Insert(ring: seq<PeerRef>, o: nat, x: PeerRef): (r: seq<PeerRef>)
    requires o <= |ring|
    ensures |r| == |ring| + 1
    ensures forall m :: 0 <= m < |r| ==> r[m] == if m < o then ring[m] else if m == o then x else ring[m - 1]
  {
    ring[..o] + [x] + ring[o..]
  }

  /** On a consistent ring distinct positions are served at distinct addresses. */
  lemma AddressesDistinct(views: map<Bytes, RingView>, ring: seq<PeerRef>, i: nat, j: nat)
    requires ConsistentRing(views, ring)
    requires i < j < |ring|
    ensures Address(ring[i]) != Address(ring[j])
  {
    assert Linked(views, ring, i) && Linked(views, ring, j);
    assert Below(ring, i, j);
  }

  /** Two positions of the inserted ring are in increasing id order. */
  lemma InsertBelow(ring: seq<PeerRef>, x: PeerRef, o: nat, i: nat, j: nat)
    requires Sorted(ring) && o < |ring|
    requires forall t :: 0 <= t < o ==> ring[t].id < x.id
    requires x.id < ring[o].id
    requires i < j <= |ring|
    ensures Below(Insert(ring, o, x), i, j)
  {
    var r := Insert(ring, o, x);
    if j < o {
      assert Below(ring, i, j);
    } else if j == o {
      assert r[i] == ring[i];
    } else if i < o {
      assert r[i] == ring[i] && r[j] == ring[j - 1];
      assert Below(ring, i, j - 1);
    } else if i == o {
      if j - 1 > o { assert Below(ring, o, j - 1); }
    } else {
      assert Below(ring, i - 1, j - 1);
    }
  }

  /** The inserted ring is still in increasing id order. */
  lemma InsertSorted(ring: seq<PeerRef>, x: PeerRef)
    requires |ring| >= 1 && Sorted(ring)
    requires x.id <= ring[|ring| - 1].id
    requires forall j :: 0 <= j < |ring| ==> ring[j].id != x.id
    ensures Sorted(Insert(ring, OwnerIndex(ring, x.id), x))
  {
    var o := OwnerIndex(ring, x.id);
    forall i, j | 0 <= i < j < |ring| + 1 ensures Below(Insert(ring, o, x), i, j) {
      InsertBelow(ring, x, o, i, j);
    }
  }

  /** The setting of a join: a consistent ring of two or more peers, a joiner whose
      id lies in the non-wrapping range and differs from every member's, at an
      address no member serves. */
  ghost predicate JoinSetting(views: map<Bytes, RingView>, ring: seq<PeerRef>, x: PeerRef) {
    && ConsistentRing(views, ring) && |ring| >= 2
    && ring[0].id < x.id <= ring[|ring| - 1].id
    && forall j :: 0 <= j < |ring| ==> ring[j].id != x.id && Address(ring[j]) != Address(x)
  }

  /** The owner of the joiner's id is not the first peer, and it and its predecessor
      are served at distinct addresses. */
  lemma JoinNeighbours(views: map<Bytes, RingView>, ring: seq<PeerRef>, x: PeerRef)
    requires JoinSetting(views, ring, x)
    ensures var o := OwnerIndex(ring, x.id);
      && 1 <= o && Linked(views, ring, o) && Linked(views, ring, o - 1)
      && Address(ring[o - 1]) != Address(ring[o])
      && Address(x) != Address(ring[o]) && Address(x) != Address(ring[o - 1])
  {
    var n := |ring|;
    var o := OwnerIndex(ring, x.id);
    assert Below(ring, 0, n - 1);
    assert Linked(views, ring, o) && Linked(views, ring, o - 1);
    AddressesDistinct(views, ring, o - 1, o);
  }

  /** A member other than the owner and its predecessor keeps its view, and its
      neighbours in the joined ring are its old ones. */
  lemma JoinLinkedOther(views: map<Bytes, RingView>, ring: seq<PeerRef>, x: PeerRef, o: nat, j: nat)
    requires JoinPoint(views, ring, x, o)
    requires j < |ring| && (j < o - 1 || o < j) && Linked(views, ring, j)
    requires Address(ring[j]) != Address(x) && Address(ring[j]) != Address(ring[o]) && Address(ring[j]) != Address(ring[o - 1])
    ensures Linked(Joined(views, x, ring[o]), Insert(ring, o, x), if j < o then j else j + 1)
  {
    var n := |ring|;
    var m := if j < o then j else j + 1;
    var r := Insert(ring, o, x);
    assert Joined(views, x, ring[o])[Address(ring[j])] == views[Address(ring[j])];
    assert r[m] == ring[j];
    assert r[Next(n + 1, m)] == ring[Next(n, j)];
    assert r[Prev(n + 1, m)] == ring[Prev(n, j)];
  }

  /** The facts about the owner `ring[o]` of the joiner's id and its predecessor that
      the joined views rely on. */
  ghost predicate JoinPoint(views: map<Bytes, RingView>, ring: seq<PeerRef>, x: PeerRef, o: nat) {
    && 1 <= o < |ring| && |ring| >= 2
    && Linked(views, ring, o) && Linked(views, ring, o - 1)
    && Address(ring[o - 1]) != Address(ring[o])
    && Address(x) != Address(ring[o]) && Address(x) != Address(ring[o - 1])
  }

  /** The owner's predecessor now has the joiner as its successor. */
  lemma JoinLinkedPred(views: map<Bytes, RingView>, ring: seq<PeerRef>, x: PeerRef, o: nat)
    requires JoinPoint(views, ring, x, o)
    ensures Linked(Joined(views, x, ring[o]), Insert(ring, o, x), o - 1)
  {
    var n := |ring|;
    var r := Insert(ring, o, x);
    assert r[o - 1] == ring[o - 1] && r[Next(n + 1, o - 1)] == x;
    assert r[Prev(n + 1, o - 1)] == ring[Prev(n, o - 1)];
  }

  /** The joiner points to the owner and to the owner's old predecessor. */
  lemma JoinLinkedJoiner(views: map<Bytes, RingView>, ring: seq<PeerRef>, x: PeerRef, o: nat)
    requires JoinPoint(views, ring, x, o)
    ensures Linked(Joined(views, x, ring[o]), Insert(ring, o, x), o)
  {
    var n := |ring|;
    var r := Insert(ring, o, x);
    assert r[o] == x && r[Next(n + 1, o)] == ring[o] && r[Prev(n + 1, o)] == ring[o - 1];
  }

  /** The owner now has the joiner as its predecessor. */
  lemma JoinLinkedOwner(views: map<Bytes, RingView>, ring: seq<PeerRef>, x: PeerRef, o: nat)
    requires JoinPoint(views, ring, x, o)
    ensures Linked(Joined(views, x, ring[o]), Insert(ring, o, x), o + 1)
  {
    var n := |ring|;
    var r := Insert(ring, o, x);
    assert r[o + 1] == ring[o] && r[Prev(n + 1, o + 1)] == x;
    assert r[Next(n + 1, o + 1)] == ring[Next(n, o)];
  }

  /** A member away from the join point is linked in the joined ring. */
  lemma JoinLinkedFar(views: map<Bytes, RingView>, ring: seq<PeerRef>, x: PeerRef, o: nat, j: nat)
    requires ConsistentRing(views, ring) && JoinPoint(views, ring, x, o)
    requires j < |ring| && (j < o - 1 || o < j) && Address(ring[j]) != Address(x)
    ensures Linked(Joined(views, x, ring[o]), Insert(ring, o, x), if j < o then j else j + 1)
  {
    assert Linked(views, ring, j);
    if j < o - 1 { AddressesDistinct(views, ring, j, o - 1); } else { AddressesDistinct(views, ring, o - 1, j); }
    if j < o { AddressesDistinct(views, ring, j, o); } else { AddressesDistinct(views, ring, o, j); }
    JoinLinkedOther(views, ring, x, o, j);
  }

  /** Every position of the joined ring is linked to its true neighbours. */
  lemma JoinLinkedAt(views: map<Bytes, RingView>, ring: seq<PeerRef>, x: PeerRef, o: nat, m: nat)
    requires ConsistentRing(views, ring) && JoinPoint(views, ring, x, o)
    requires forall j :: 0 <= j < |ring| ==> Address(ring[j]) != Address(x)
    requires m <= |ring|
    ensures Linked(Joined(views, x, ring[o]), Insert(ring, o, x), m)
  {
    if m == o - 1 {
      JoinLinkedPred(views, ring, x, o);
    } else if m == o {
      JoinLinkedJoiner(views, ring, x, o);
    } else if m == o + 1 {
      JoinLinkedOwner(views, ring, x, o);
    } else {
      JoinLinkedFar(views, ring, x, o, if m < o then m else m - 1);
    }
  }

  /** Joining a consistent ring of two or more peers with the owner of the joiner's
      id as successor gives a consistent ring with the joiner in its place. */
  lemma JoinKeepsRingConsistent(views: map<Bytes, RingView>, ring: seq<PeerRef>, x: PeerRef)
    requires JoinSetting(views, ring, x)
    ensures var o := OwnerIndex(ring, x.id);
      1 <= o && Linked(views, ring, o) && Linked(views, ring, o - 1)
      && ConsistentRing(Joined(views, x, ring[o]), Insert(ring, o, x))
  {
    var o := OwnerIndex(ring, x.id);
    JoinNeighbours(views, ring, x);
    InsertSorted(ring, x);
    forall m | 0 <= m < |ring| + 1 ensures Linked(Joined(views, x, ring[o]), Insert(ring, o, x), m) {
      JoinLinkedAt(views, ring, x, o, m);
    }
  }

  /** The owner's position is the first one whose id is at least the key. */
  lemma {:induction false} OwnerIndexAt(ring: seq<PeerRef>, k: uint32, i: nat)
    requires i < |ring| && k <= ring[i].id && k <= ring[|ring| - 1].id
    requires forall t :: 0 <= t < i ==> ring[t].id < k
    ensures OwnerIndex(ring, k) == i
    decreases i
  {
    if i > 0 {
      assert ring[0].id < k;
      OwnerIndexAt(ring[1..], k, i - 1);
    }
  }

  /** A join through any member of a consistent ring: the lookup of the joiner's id
      finds the owner, and linking the joiner in front of it gives a consistent ring. */
  lemma JoinOnRing(views: map<Bytes, RingView>, ring: seq<PeerRef>, x: PeerRef, j: nat, hops: nat)
    requires JoinSetting(views, ring, x)
    requires j < |ring| && hops >= |ring|
    ensures var o := OwnerIndex(ring, x.id);
      && Route(views, Address(ring[j]), x.id, hops) == Found(ring[o])
      && 1 <= o && Linked(views, ring, o) && Linked(views, ring, o - 1)
      && ConsistentRing(Joined(views, x, ring[o]), Insert(ring, o, x))
  {
    RouteOnConsistentRing(views, ring, x.id, j, hops);
    JoinKeepsRingConsistent(views, ring, x);
  }

  /** After a join, a lookup of a key above the joiner's id and at most the owner's
      still answers the owner: the keys of that range that the owner hands to the
      joiner are looked up at the owner. */
  lemma HandedKeysRouteToOwner(views: map<Bytes, RingView>, ring: seq<PeerRef>, x: PeerRef, k: uint32, j: nat, hops: nat)
    requires JoinSetting(views, ring, x)
    requires x.id < k <= ring[OwnerIndex(ring, x.id)].id
    requires j <= |ring| && hops > |ring|
    ensures var o := OwnerIndex(ring, x.id);
      && 1 <= o && Linked(views, ring, o) && Linked(views, ring, o - 1)
      && Route(Joined(views, x, ring[o]), Address(Insert(ring, o, x)[j]), k, hops) == Found(ring[o])
  {
    var n := |ring|;
    var o := OwnerIndex(ring, x.id);
    JoinKeepsRingConsistent(views, ring, x);
    var r := Insert(ring, o, x);
    forall t | 0 <= t < o + 1 ensures r[t].id < k {
      if t < o { assert ring[t].id < x.id; }
    }
    if o < n - 1 { assert Below(ring, o, n - 1); }
    assert r[o + 1] == ring[o] && r[n] == ring[n - 1];
    OwnerIndexAt(r, k, o + 1);
    RouteOnConsistentRing(Joined(views, x, ring[o]), r, k, j, hops);
  }

  /** After a join, a lookup of a key above the old predecessor's id and at most the
      joiner's answers the joiner: the keys of that range, which the owner keeps,
      are looked up at the joiner. */
  lemma KeptKeysRouteToJoiner(views: map<Bytes, RingView>, ring: seq<PeerRef>, x: PeerRef, k: uint32, j: nat, hops: nat)
    requires JoinSetting(views, ring, x)
    requires ring[OwnerIndex(ring, x.id) - 1].id < k <= x.id
    requires j <= |ring| && hops > |ring|
    ensures var o := OwnerIndex(ring, x.id);
      && 1 <= o && Linked(views, ring, o) && Linked(views, ring, o - 1)
      && Route(Joined(views, x, ring[o]), Address(Insert(ring, o, x)[j]), k, hops) == Found(x)
  {
    var n := |ring|;
    var o := OwnerIndex(ring, x.id);
    JoinKeepsRingConsistent(views, ring, x);
    var r := Insert(ring, o, x);
    forall t | 0 <= t < o ensures r[t].id < k {
      if t < o - 1 { assert Below(ring, t, o - 1); }
    }
    assert Below(ring, o, n - 1) || o == n - 1;
    OwnerIndexAt(r, k, o);
    RouteOnConsistentRing(Joined(views, x, ring[o]), r, k, j, hops);
  }

  /** A peer alone in its ring and a joiner form a consistent ring of two. */
  lemma JoinSingleton(views: map<Bytes, RingView>, q: PeerRef, x: PeerRef)
    requires ConsistentRing(views, [q])
    requires q.id != x.id && Address(q) != Address(x)
    ensures var pair := if x.id < q.id then [x, q] else [q, x];
      Linked(views, [q], 0) && ConsistentRing(Joined(views, x, q), pair)
  {
    assert Linked(views, [q], 0);
    var pair := if x.id < q.id then [x, q] else [q, x];
    assert Below(pair, 0, 1);
    assert Linked(Joined(views, x, q), pair, 0) && Linked(Joined(views, x, q), pair, 1);
  }

  /** A peer alone in its ring answers every lookup with itself. */
  lemma SingletonOwnsEverything(views: map<Bytes, RingView>, p: PeerRef, k: uint32, hops: nat)
    requires Address(p) in views && views[Address(p)] == RingView(p, p, p)
    requires hops >= 1
    ensures Route(views, Address(p), k, hops) == Found(p)
  {
  }

  /** The consequence of the linear comparisons: on a consistent ring of two or more
      peers, a key at most the smallest id or above the largest is forwarded round
      the ring until the hop budget is gone, whatever the budget. */
  lemma {:induction false} WrappingKeysNeverResolve(views: map<Bytes, RingView>, ring: seq<PeerRef>, k: uint32, j: nat, hops: nat)
    requires ConsistentRing(views, ring) && |ring| >= 2
    requires k <= ring[0].id || ring[|ring| - 1].id < k
    requires j < |ring|
    ensures Route(views, Address(ring[j]), k, hops) == HopsExhausted
    decreases hops
  {
    if hops > 0 {
      var n := |ring|;
      assert Linked(views, ring, j);
      assert Below(ring, 0, n - 1);
      if 0 < j { assert Below(ring, 0, j); }
      if j < n - 1 { assert Below(ring, j, n - 1); assert Below(ring, j, j + 1); }
      if 1 < j { assert Below(ring, 0, j - 1); }
      if j + 1 < n - 1 { assert Below(ring, j + 1, n - 1); }
      assert Decide(views[Address(ring[j])], k) == Forward;
      WrappingKeysNeverResolve(views, ring, k, Next(n, j), hops - 1);
    }
  }
}
