/** The peers of one deployment as a map from dial address to the peer serving it.
    A remote call is a direct call on the addressed peer; a dial to an address no
    peer serves is the failure that ends the calling process. */
module Network {
  import opened Common
  import opened Ring
  import opened FileStore
  import opened Peer

  /** What every peer knows of the ring, by address. */
  function Views(net: map<Bytes, PeerNode>): (views: map<Bytes, RingView>)
    reads net.Values`me, net.Values`succ, net.Values`pred
    ensures views.Keys == net.Keys
    ensures forall a :: a in net ==> views[a] == RingView(net[a].me, net[a].succ, net[a].pred)
  {
    map a | a in net :: net[a].View()
  }

  /** Distinct addresses are served by distinct peers. */
  predicate Injective(net: map<Bytes, PeerNode>) {
    forall a, b :: a in net && b in net && a != b ==> net[a] != net[b]
  }

  /** Every peer keeps its index invariant. */
  predicate AllValid(net: map<Bytes, PeerNode>)
    reads net.Values
  {
    forall a :: a in net ==> net[a].Valid()
  }

  /** No peer other than the one at `x` refers to the address `x` in its view. */
  predicate Outsider(views: map<Bytes, RingView>, x: Bytes) {
    forall a :: a in views && a != x ==>
      Address(views[a].me) != x && Address(views[a].succ) != x && Address(views[a].pred) != x
  }

  /** A lookup that starts away from `x`, on a ring that does not know `x`, never
      answers with a peer at `x`. */
  lemma {:induction false} RouteAvoids(views: map<Bytes, RingView>, x: Bytes, at: Bytes, id: uint32, hops: nat)
    requires Outsider(views, x) && at != x
    ensures Route(views, at, id, hops).Found? ==> Address(Route(views, at, id, hops).owner) != x
    decreases hops
  {
    if hops > 0 && at in views && Decide(views[at], id) == Forward {
      RouteAvoids(views, x, Address(views[at].succ), id, hops - 1);
    }
  }

  /** The outcome of a join or leave that did not complete: the lookup of the
      joiner's id failed, or a peer to be dialled serves no address in the network. */
  datatype NetError = LookupFailed(lookup: Lookup) | DialFailed(address: Bytes)

  /** Serve a sequence of `SetFile` calls at `target`, in order. */
  method Deliver(target: PeerNode, calls: seq<SetFileCall>)
    requires target.Valid()
    modifies target`files, target`disk
    ensures target.Valid()
    ensures target.files == ApplyIndex(old(target.files), calls)
    ensures target.disk == ApplyWrites(old(target.disk), calls)
  {
    var i := 0;
    while i < |calls|
      invariant 0 <= i <= |calls|
      invariant target.Valid()
      invariant target.files == ApplyIndex(old(target.files), calls[..i])
      invariant target.disk == ApplyWrites(old(target.disk), calls[..i])
    {
      assert calls[..i + 1][..i] == calls[..i];
      target.SetFile(calls[i].file);
      i := i + 1;
    }
    assert calls[..i] == calls;
  }

  /** `Set("p", x)` at `y` with the `SetFile` calls it makes served by `x`. */
  method Adopt(y: PeerNode, x: PeerNode)
    requires y != x && y.Valid() && x.Valid()
    modifies y, x`files, x`disk
    ensures y.Valid() && x.Valid()
    ensures y.me == old(y.me) && y.succ == old(y.succ) && y.pred == old(x.me)
    ensures y.files == KeysBelow(old(y.files), x.me.id)
    ensures y.disk == old(y.disk) - KeysFrom(old(y.files), x.me.id).Values
    ensures x.files == old(x.files) + KeysFrom(old(y.files), x.me.id)
    ensures x.disk == old(x.disk) + Materialize(KeysFrom(old(y.files), x.me.id).Values, old(y.disk))
  {
    ghost var files0, disk0 := y.files, y.disk;
    var sentBefore := |y.outbox|;
    ghost var order := y.Set("p", x.me);
    var calls := y.outbox[sentBefore..];
    assert calls == Transfers(x.me, files0, disk0, order);
    Deliver(x, calls);
    MigrationDelivered(x.me, files0, disk0, order, x.me.id, old(x.files), old(x.disk));
  }

  /** `Leave` at `x` with the `SetFile` calls it makes served by its successor `t`. */
  method HandOver(x: PeerNode, t: PeerNode)
    requires x != t && x.Valid() && t.Valid() && x.succ.id != x.me.id
    modifies x`files, x`disk, x`outbox, t`files, t`disk
    ensures x.Valid() && t.Valid()
    ensures x.files == map[] && x.disk == old(x.disk) - old(x.files).Values
    ensures t.files == old(t.files) + old(x.files)
    ensures t.disk == old(t.disk) + Materialize(old(x.files).Values, old(x.disk))
  {
    ghost var files0, disk0 := x.files, x.disk;
    var sentBefore := |x.outbox|;
    ghost var order := x.Leave();
    var calls := x.outbox[sentBefore..];
    assert calls == Transfers(x.succ, files0, disk0, order);
    Deliver(t, calls);
    WholeIndexDelivered(x.succ, files0, disk0, order, old(t.files), old(t.disk));
  }

  /** The four steps of a join once the successor `y` of `x`'s id (known as `owner`)
      and its predecessor `p` have been found. */
  method Link(x: PeerNode, owner: PeerRef, y: PeerNode, p: PeerNode)
    requires x != y && x != p && x.Valid() && y.Valid() && p.Valid()
    modifies x, y, p
    ensures x.Valid() && y.Valid() && p.Valid()
    ensures x.me == old(x.me) && x.succ == owner && x.pred == old(y.pred)
    ensures y.pred == x.me
    ensures y.files == KeysBelow(old(y.files), x.me.id)
    ensures y.disk == old(y.disk) - KeysFrom(old(y.files), x.me.id).Values
    ensures x.files == old(x.files) + KeysFrom(old(y.files), x.me.id)
    ensures x.disk == old(x.disk) + Materialize(KeysFrom(old(y.files), x.me.id).Values, old(y.disk))
    ensures p.succ == x.me
    ensures y.me == old(y.me) && p.me == old(p.me)
    ensures y != p ==> y.succ == old(y.succ) && p.pred == old(p.pred)
    ensures y != p ==> p.files == old(p.files) && p.disk == old(p.disk) && p.outbox == old(p.outbox)
    ensures x.outbox == old(x.outbox)
  {
    // Step 1: the successor of x's own id becomes x's successor.
    x.succ := owner;
    // Step 2: x takes its successor's predecessor.
    x.pred := y.pred;
    // Step 3: x becomes its successor's predecessor, which sends x its share of files.
    Adopt(y, x);
    // Step 4: x becomes its predecessor's successor.
    ghost var _ := p.Set("s", x.me);
  }

  /** The views after a join, given what became of the three peers it touched. */
  lemma ViewsAfterLink(net: map<Bytes, PeerNode>, views0: map<Bytes, RingView>, x: PeerNode, owner: PeerRef, y: PeerNode, p: PeerNode)
    requires views0.Keys == net.Keys && Injective(net)
    requires Address(x.me) in net && net[Address(x.me)] == x
    requires Address(owner) in net && net[Address(owner)] == y
    requires Address(views0[Address(owner)].pred) in net && net[Address(views0[Address(owner)].pred)] == p
    requires Address(x.me) != Address(owner) && Address(x.me) != Address(views0[Address(owner)].pred)
    requires x.View() == RingView(x.me, owner, views0[Address(owner)].pred)
    requires y != p ==>
      && y.View() == views0[Address(owner)].(pred := x.me)
      && p.View() == views0[Address(views0[Address(owner)].pred)].(succ := x.me)
    requires y == p ==> y.View() == views0[Address(owner)].(pred := x.me, succ := x.me)
    requires forall a :: a in net && net[a] != x && net[a] != y && net[a] != p ==> net[a].View() == views0[a]
    ensures Views(net) == Joined(views0, x.me, owner)
  {
    var joined := Joined(views0, x.me, owner);
    forall a | a in net ensures Views(net)[a] == joined[a] {
      if a != Address(x.me) && a != Address(owner) && a != Address(views0[Address(owner)].pred) {
        assert net[a] != x && net[a] != y && net[a] != p;
      }
    }
    assert joined.Keys == net.Keys;
  }

  /** `Link` as the network sees it: the views change exactly as `Joined` says. */
  method LinkInNet(net: map<Bytes, PeerNode>, x: PeerNode, owner: PeerRef, y: PeerNode, p: PeerNode)
    requires Injective(net) && AllValid(net)
    requires Address(x.me) in net && net[Address(x.me)] == x
    requires Address(owner) in net && net[Address(owner)] == y
    requires Address(y.pred) in net && net[Address(y.pred)] == p
    requires Address(x.me) != Address(owner) && Address(x.me) != Address(y.pred)
    modifies net.Values
    ensures AllValid(net) && y != x && p != x
    ensures x.me == old(x.me) && x.succ == owner && x.pred == old(y.pred)
    ensures y.pred == x.me
    ensures y.files == KeysBelow(old(y.files), x.me.id)
    ensures y.disk == old(y.disk) - KeysFrom(old(y.files), x.me.id).Values
    ensures x.files == old(x.files) + KeysFrom(old(y.files), x.me.id)
    ensures x.disk == old(x.disk) + Materialize(KeysFrom(old(y.files), x.me.id).Values, old(y.disk))
    ensures p.succ == x.me
    ensures y != p ==> p.files == old(p.files) && p.disk == old(p.disk) && p.outbox == old(p.outbox)
    ensures x.outbox == old(x.outbox)
    ensures Views(net) == Joined(old(Views(net)), x.me, owner)
    ensures forall a :: a in net && net[a] != x && net[a] != y && net[a] != p ==> unchanged(net[a])
  {
    ghost var views0 := Views(net);
    Link(x, owner, y, p);
    ViewsAfterLink(net, views0, x, owner, y, p);
  }

  /** `Connect`: the peer `x` joins through the peer at `entry`. It looks up the
      successor of its own id, takes that peer's predecessor as its own, makes
      itself that peer's predecessor (which hands `x` the files at or above `x`'s
      id), and makes itself the old predecessor's successor. A lookup that fails or
      a peer that cannot be dialled aborts the join before any peer has changed. */
  method Connect(net: map<Bytes, PeerNode>, x: PeerNode, entry: Bytes, hops: nat)
    returns (r: Result<PeerRef, NetError>, y: PeerNode, p: PeerNode)
    requires Injective(net) && AllValid(net)
    requires Address(x.me) in net && net[Address(x.me)] == x
    requires Outsider(Views(net), Address(x.me)) && entry != Address(x.me)
    modifies net.Values
    ensures AllValid(net)
    ensures r.Err? ==> forall a :: a in net ==> unchanged(net[a])
    ensures r.Ok? <==>
      var l := Route(old(Views(net)), entry, old(x.me.id), hops);
      && l.Found? && Address(l.owner) in old(Views(net))
      && Address(old(Views(net))[Address(l.owner)].pred) in old(Views(net))
    ensures r.Err? && r.error.LookupFailed? <==> !Route(old(Views(net)), entry, old(x.me.id), hops).Found?
    ensures r.Err? && r.error.LookupFailed? ==>
      Route(old(Views(net)), entry, old(x.me.id), hops) == r.error.lookup
    ensures r.Err? && r.error.DialFailed? ==> r.error.address !in net
    ensures r.Ok? ==>
      && Route(old(Views(net)), entry, old(x.me.id), hops) == Found(r.value)
      && Address(r.value) in net && net[Address(r.value)] == y && y != x
      && Address(old(y.pred)) in net && net[Address(old(y.pred))] == p && p != x
      && x.me == old(x.me) && x.succ == r.value && x.pred == old(y.pred)
      && y.pred == x.me
      && y.files == KeysBelow(old(y.files), x.me.id)
      && y.disk == old(y.disk) - KeysFrom(old(y.files), x.me.id).Values
      && x.files == old(x.files) + KeysFrom(old(y.files), x.me.id)
      && x.disk == old(x.disk) + Materialize(KeysFrom(old(y.files), x.me.id).Values, old(y.disk))
      && p.succ == x.me
      && (y != p ==> p.files == old(p.files) && p.disk == old(p.disk) && p.outbox == old(p.outbox))
      && x.outbox == old(x.outbox)
    ensures WellAddressed(old(Views(net))) ==> WellAddressed(Views(net))
    ensures r.Ok? ==>
      && Address(r.value) in old(Views(net)) && Address(old(Views(net))[Address(r.value)].pred) in old(Views(net))
      && Address(x.me) != Address(r.value) && Address(x.me) != Address(old(Views(net))[Address(r.value)].pred)
      && Views(net) == Joined(old(Views(net)), x.me, r.value)
    ensures forall a :: a in net && net[a] != x && net[a] != y && net[a] != p ==> unchanged(net[a])
  {
    y, p := x, x;
    var lookup := Route(Views(net), entry, x.me.id, hops);
    RouteAvoids(Views(net), Address(x.me), entry, x.me.id, hops);
    if !lookup.Found? {
      return Err(LookupFailed(lookup)), y, p;
    }
    var owner := lookup.owner;
    if Address(owner) !in net {
      return Err(DialFailed(Address(owner))), y, p;
    }
    var succ := net[Address(owner)];
    if Address(succ.pred) !in net {
      return Err(DialFailed(Address(succ.pred))), y, p;
    }
    y, p := succ, net[Address(succ.pred)];
    ghost var views0 := Views(net);
    LinkInNet(net, x, owner, y, p);
    if WellAddressed(views0) {
      RouteAddressed(views0, entry, x.me.id, hops);
      assert Addressed(x.me) by { assert views0[Address(x.me)].me == x.me; }
      JoinedWellAddressed(views0, x.me, owner);
    }
    r := Ok(owner);
  }

  /** A peer joining through any member of a consistent ring of two or more peers,
      whose id falls in the ring's non-wrapping range, succeeds; its successor is the
      owner of its id, and the ring stays consistent with the joiner inserted in id
      order. */
  method JoinThroughRing(net: map<Bytes, PeerNode>, x: PeerNode, ring: seq<PeerRef>, j: nat, hops: nat)
    returns (r: Result<PeerRef, NetError>, y: PeerNode, p: PeerNode)
    requires Injective(net) && AllValid(net)
    requires Address(x.me) in net && net[Address(x.me)] == x
    requires Outsider(Views(net), Address(x.me))
    requires JoinSetting(Views(net), ring, x.me) && j < |ring| && hops >= |ring|
    modifies net.Values
    ensures AllValid(net) && x.me == old(x.me)
    ensures r.Ok? && r.value == ring[OwnerIndex(ring, x.me.id)]
    ensures ConsistentRing(Views(net), Insert(ring, OwnerIndex(ring, x.me.id), x.me))
  {
    JoinOnRing(Views(net), ring, x.me, j, hops);
    r, y, p := Connect(net, x, Address(ring[j]), hops);
  }

  /** Every reference every peer holds is `Addressed`. */
  predicate AddressedPeers(net: map<Bytes, PeerNode>)
    reads net.Values`me, net.Values`succ, net.Values`pred
  {
    forall a :: a in net ==> Addressed(net[a].me) && Addressed(net[a].succ) && Addressed(net[a].pred)
  }

  /** `AddressedPeers` is `WellAddressed` of the network's views. */
  lemma AddressedPeersViews(net: map<Bytes, PeerNode>)
    ensures AddressedPeers(net) <==> WellAddressed(Views(net))
  {
  }

  /** With every reference `Addressed`, a peer that is not alone has its successor
      at another address, served by another peer. */
  lemma SuccessorElsewhere(net: map<Bytes, PeerNode>, x: PeerNode)
    requires Injective(net) && AddressedPeers(net)
    requires Address(x.me) in net && net[Address(x.me)] == x
    requires x.succ.id != x.me.id && Address(x.succ) in net
    ensures net[Address(x.succ)] != x
  {
    assert Addressed(x.me) && Addressed(x.succ);
  }

  /** `Leave` at a peer that holds files and is not alone, served by the peer at its
      successor's address. */
  method Drain(net: map<Bytes, PeerNode>, x: PeerNode) returns (t: PeerNode)
    requires Injective(net) && AllValid(net) && AddressedPeers(net)
    requires Address(x.me) in net && net[Address(x.me)] == x
    requires x.succ.id != x.me.id && Address(x.succ) in net
    modifies x, net[Address(x.succ)]
    ensures AllValid(net)
    ensures x.me == old(x.me) && x.succ == old(x.succ) && x.pred == old(x.pred)
    ensures t == net[Address(x.succ)] && t != x
    ensures t.me == old(t.me) && t.succ == old(t.succ) && t.pred == old(t.pred) && t.outbox == old(t.outbox)
    ensures x.files == map[] && x.disk == old(x.disk) - old(x.files).Values
    ensures t.files == old(t.files) + old(x.files)
    ensures t.disk == old(t.disk) + Materialize(old(x.files).Values, old(x.disk))
    ensures forall a :: a in net && net[a] != x && net[a] != t ==> unchanged(net[a])
  {
    t := net[Address(x.succ)];
    SuccessorElsewhere(net, x);
    HandOver(x, t);
  }

  /** `Leave` as the network sees it: the peer at `x` hands its files to the peer
      serving its successor's address, which serves the `SetFile` calls. No peer's
      view of the ring changes: neither neighbour is told to re-link. */
  method Depart(net: map<Bytes, PeerNode>, x: PeerNode)
    returns (r: Result<(), NetError>, t: PeerNode)
    requires Injective(net) && AllValid(net) && AddressedPeers(net)
    requires Address(x.me) in net && net[Address(x.me)] == x
    modifies x, if Address(x.succ) in net then {net[Address(x.succ)]} else {}
    ensures AllValid(net)
    ensures x.me == old(x.me) && x.succ == old(x.succ) && x.pred == old(x.pred)
    ensures t == x || (Address(old(x.succ)) in net && t == net[Address(old(x.succ))])
    ensures t.me == old(t.me) && t.succ == old(t.succ) && t.pred == old(t.pred)
    ensures old(x.files) == map[] || old(x.succ.id) == old(x.me.id) ==> t == x
    ensures r.Ok? && old(x.files) == map[] ==> forall a :: a in net ==> unchanged(net[a])
    ensures r.Err? <==>
      old(x.succ.id) != old(x.me.id) && old(x.files) != map[] && Address(old(x.succ)) !in net
    ensures r.Err? ==> forall a :: a in net ==> unchanged(net[a])
    ensures r.Ok? && old(x.succ.id) == old(x.me.id) ==> forall a :: a in net ==> unchanged(net[a])
    ensures r.Ok? && old(x.succ.id) != old(x.me.id) ==>
      x.files == map[] && x.disk == old(x.disk) - old(x.files).Values
    ensures r.Ok? && old(x.succ.id) != old(x.me.id) && old(x.files) != map[] ==>
      && Address(old(x.succ)) in net && t == net[Address(old(x.succ))] && t != x
      && t.files == old(t.files) + old(x.files)
      && t.disk == old(t.disk) + Materialize(old(x.files).Values, old(x.disk))
    ensures forall a :: a in net && net[a] != x && net[a] != t ==> unchanged(net[a])
  {
    t := x;
    r := Ok(());
    if x.succ.id == x.me.id || x.files == map[] {
      // `Leave` has no file to hand over: nothing changes.
    } else if Address(x.succ) !in net {
      r := Err(DialFailed(Address(x.succ)));
    } else {
      t := Drain(net, x);
    }
  }
}
