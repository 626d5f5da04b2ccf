/**
 * The peer registry of one transfer's policy (policy::m_peers) as a value, with the
 * searches policy.cpp performs on it and the outcome of add_peer and new_connection.
 * The Swarm module's Policy class keeps such a sequence in a field and is proved to
 * update it exactly as the functions here say.
 */
module PeerList {
  import opened Base
  import opened Net

  /** A known remote peer: its endpoint and the connection bound to it, if any (peer::connection). */
  datatype Peer = Peer(endpoint: Endpoint, connection: Option<Conn>)

  // ---------------------------------------------------------------------------------
  // Registry invariants
  // ---------------------------------------------------------------------------------

  /** Ordered by address, as peer_address_compare orders them, so binary search is valid. */
  ghost predicate Sorted(ps: seq<Peer>)
  {
    forall i, j :: 0 <= i < j < |ps| ==> ps[i].endpoint.address <= ps[j].endpoint.address
  }

  /** No endpoint is recorded twice. */
  ghost predicate EndpointsDistinct(ps: seq<Peer>)
  {
    forall i, j :: 0 <= i < j < |ps| ==> ps[i].endpoint != ps[j].endpoint
  }

  /** No connection is bound to two peers (c.get_peer() names one record). */
  ghost predicate LinksDistinct(ps: seq<Peer>)
  {
    forall i, j :: 0 <= i < j < |ps| && ps[i].connection.Some? ==> ps[i].connection != ps[j].connection
  }

  ghost predicate Valid(ps: seq<Peer>)
  {
    Sorted(ps) && EndpointsDistinct(ps) && LinksDistinct(ps)
  }

  /** Some peer record points at connection c. */
  ghost predicate Linked(ps: seq<Peer>, c: Conn)
  {
    exists i :: 0 <= i < |ps| && ps[i].connection == Some(c)
  }

  /** The lookup key of each mode: the address alone, or the exact endpoint. */
  ghost predicate Matches(p: Peer, ep: Endpoint, multi: bool)
  {
    if multi then p.endpoint == ep else p.endpoint.address == ep.address
  }

  // ---------------------------------------------------------------------------------
  // Searches
  // ---------------------------------------------------------------------------------

  /** std::lower_bound by address: the first index whose address is not below a. */
  function LowerBound(ps: seq<Peer>, a: Address): (k: nat)
    ensures k <= |ps|
    ensures forall i :: 0 <= i < k ==> ps[i].endpoint.address < a
    ensures k < |ps| ==> ps[k].endpoint.address >= a
  {
    if ps == [] then 0
    else if ps[0].endpoint.address >= a then 0
    else 1 + LowerBound(ps[1..], a)
  }

  /** std::upper_bound by address: the first index whose address is above a. */
  function UpperBound(ps: seq<Peer>, a: Address): (k: nat)
    ensures LowerBound(ps, a) <= k <= |ps|
    ensures forall i :: 0 <= i < k ==> ps[i].endpoint.address <= a
    ensures k < |ps| ==> ps[k].endpoint.address > a
  {
    if ps == [] then 0
    else if ps[0].endpoint.address > a then 0
    else 1 + UpperBound(ps[1..], a)
  }

  /** A first index with a property is unique: used to match a binary search with LowerBound. */
  lemma LowerBoundUnique(ps: seq<Peer>, a: Address, k: nat)
    requires k <= |ps|
    requires forall i :: 0 <= i < k ==> ps[i].endpoint.address < a
    requires k < |ps| ==> ps[k].endpoint.address >= a
    ensures k == LowerBound(ps, a)
  {
  }

  lemma UpperBoundUnique(ps: seq<Peer>, a: Address, k: nat)
    requires k <= |ps|
    requires forall i :: 0 <= i < k ==> ps[i].endpoint.address <= a
    requires k < |ps| ==> ps[k].endpoint.address > a
    ensures k == UpperBound(ps, a)
  {
  }

  /** The binary search std::lower_bound performs; valid because the registry is sorted. */
  method SearchLowerBound(ps: seq<Peer>, a: Address) returns (k: nat)
    requires Sorted(ps)
    ensures k == LowerBound(ps, a)
  {
    var lo, hi := 0, |ps|;
    while lo < hi
      invariant 0 <= lo <= hi <= |ps|
      invariant forall i :: 0 <= i < lo ==> ps[i].endpoint.address < a
      invariant forall i :: hi <= i < |ps| ==> ps[i].endpoint.address >= a
    {
      var mid := (lo + hi) / 2;
      if ps[mid].endpoint.address < a {
        lo := mid + 1;
      } else {
        hi := mid;
      }
    }
    LowerBoundUnique(ps, a, lo);
    k := lo;
  }

  /** The binary search std::upper_bound performs (the end of find_peers' equal range). */
  method SearchUpperBound(ps: seq<Peer>, a: Address) returns (k: nat)
    requires Sorted(ps)
    ensures k == UpperBound(ps, a)
  {
    var lo, hi := 0, |ps|;
    while lo < hi
      invariant 0 <= lo <= hi <= |ps|
      invariant forall i :: 0 <= i < lo ==> ps[i].endpoint.address <= a
      invariant forall i :: hi <= i < |ps| ==> ps[i].endpoint.address > a
    {
      var mid := (lo + hi) / 2;
      if ps[mid].endpoint.address <= a {
        lo := mid + 1;
      } else {
        hi := mid;
      }
    }
    UpperBoundUnique(ps, a, lo);
    k := lo;
  }

  /** std::find_if with match_peer_endpoint over [lo, hi): the first exact match, or hi. */
  function FindEndpoint(ps: seq<Peer>, lo: nat, hi: nat, ep: Endpoint): (k: nat)
    requires lo <= hi <= |ps|
    ensures lo <= k <= hi
    ensures forall i :: lo <= i < k ==> ps[i].endpoint != ep
    ensures k < hi ==> ps[k].endpoint == ep
    decreases hi - lo
  {
    if lo == hi then hi
    else if ps[lo].endpoint == ep then lo
    else FindEndpoint(ps, lo + 1, hi, ep)
  }

  /** The linear scan of std::find_if. */
  method ScanForEndpoint(ps: seq<Peer>, lo: nat, hi: nat, ep: Endpoint) returns (k: nat)
    requires lo <= hi <= |ps|
    ensures k == FindEndpoint(ps, lo, hi, ep)
  {
    k := lo;
    while k < hi && ps[k].endpoint != ep
      invariant lo <= k <= hi
      invariant FindEndpoint(ps, lo, hi, ep) == FindEndpoint(ps, k, hi, ep)
    {
      k := k + 1;
    }
  }

  /** Where a lookup landed: whether a record was found, and the iterator position. */
  datatype Lookup = Lookup(found: bool, pos: nat)

  /**
   * The lookup add_peer and new_connection share: with several connections per IP,
   * an exact endpoint inside the equal range of its address (find_peers); otherwise
   * lower_bound by address and a test of the address found there.
   */
  function Locate(ps: seq<Peer>, ep: Endpoint, multi: bool): (l: Lookup)
    ensures l.pos <= |ps|
    ensures l.found ==> l.pos < |ps|
  {
    if multi then
      var hi := UpperBound(ps, ep.address);
      var k := FindEndpoint(ps, LowerBound(ps, ep.address), hi, ep);
      Lookup(k < hi, k)
    else
      var k := LowerBound(ps, ep.address);
      Lookup(k < |ps| && ps[k].endpoint.address == ep.address, k)
  }

  /** New records go where address order is kept on both sides. */
  ghost predicate InsertionPoint(ps: seq<Peer>, k: nat, a: Address)
  {
    && k <= |ps|
    && (forall i :: 0 <= i < k ==> ps[i].endpoint.address <= a)
    && (forall i :: k <= i < |ps| ==> ps[i].endpoint.address >= a)
  }

  /**
   * On a sorted registry the lookup is exact: it finds a record iff one matches the key,
   * the record found matches, and on a miss the position keeps the order.
   */
  lemma LocateCorrect(ps: seq<Peer>, ep: Endpoint, multi: bool)
    requires Sorted(ps)
    ensures Locate(ps, ep, multi).found <==> exists i :: 0 <= i < |ps| && Matches(ps[i], ep, multi)
    ensures Locate(ps, ep, multi).found ==> Matches(ps[Locate(ps, ep, multi).pos], ep, multi)
    ensures !Locate(ps, ep, multi).found ==> InsertionPoint(ps, Locate(ps, ep, multi).pos, ep.address)
  {
    var l := Locate(ps, ep, multi);
    var lo, hi := LowerBound(ps, ep.address), UpperBound(ps, ep.address);
    if multi {
      if !l.found {
        forall i | 0 <= i < |ps| ensures ps[i].endpoint != ep {
          if lo <= i < hi {
          } else if i < lo {
            assert ps[i].endpoint.address < ep.address;
          } else {
            assert ps[hi].endpoint.address > ep.address;
          }
        }
      }
    } else {
      if !l.found {
        forall i | 0 <= i < |ps| ensures ps[i].endpoint.address != ep.address {
          if i >= lo {
            assert ps[lo].endpoint.address > ep.address;
          }
        }
      }
    }
  }

  // ---------------------------------------------------------------------------------
  // Updates of the registry
  // ---------------------------------------------------------------------------------

  /** vector::insert at an iterator position. */
  function Insert(ps: seq<Peer>, k: nat, p: Peer): (r: seq<Peer>)
    requires k <= |ps|
    ensures |r| == |ps| + 1 && r[k] == p
    ensures forall i :: 0 <= i < k ==> r[i] == ps[i]
    ensures forall i :: k < i < |r| ==> r[i] == ps[i - 1]
  {
    ps[..k] + [p] + ps[k..]
  }

  /** Inserting an unlinked new endpoint at an insertion point keeps every invariant. */
  lemma InsertKeepsValid(ps: seq<Peer>, k: nat, p: Peer)
    requires Valid(ps) && InsertionPoint(ps, k, p.endpoint.address)
    requires forall i :: 0 <= i < |ps| ==> ps[i].endpoint != p.endpoint
    requires p.connection.None?
    ensures Valid(Insert(ps, k, p))
  {
    var r := Insert(ps, k, p);
    forall i, j | 0 <= i < j < |r| ensures r[i].endpoint.address <= r[j].endpoint.address {
      if j < k {
      } else if j == k {
      } else if i < k {
        assert r[i] == ps[i] && r[j] == ps[j - 1];
      } else if i == k {
        assert r[j] == ps[j - 1];
      } else {
        assert r[i] == ps[i - 1] && r[j] == ps[j - 1];
      }
    }
    forall i, j | 0 <= i < j < |r| ensures r[i].endpoint != r[j].endpoint {
      if i < k && k < j {
        assert r[i] == ps[i] && r[j] == ps[j - 1];
      } else if k < i {
        assert r[i] == ps[i - 1] && r[j] == ps[j - 1];
      }
    }
    forall i, j | 0 <= i < j < |r| && r[i].connection.Some? ensures r[i].connection != r[j].connection {
      if i < k && k < j {
        assert r[i] == ps[i] && r[j] == ps[j - 1];
      } else if k < i {
        assert r[i] == ps[i - 1] && r[j] == ps[j - 1];
      }
    }
  }

  /** policy::set_connection / `i->connection = &c`: peer k now points at c. */
  function Bind(ps: seq<Peer>, k: nat, c: Conn): (r: seq<Peer>)
    requires k < |ps|
    ensures |r| == |ps| && r[k].connection == Some(c) && r[k].endpoint == ps[k].endpoint
    ensures forall i :: 0 <= i < |ps| && i != k ==> r[i] == ps[i]
  {
    ps[k := ps[k].(connection := Some(c))]
  }

  lemma BindKeepsValid(ps: seq<Peer>, k: nat, c: Conn)
    requires Valid(ps) && k < |ps| && !Linked(ps, c)
    ensures Valid(Bind(ps, k, c))
  {
    var r := Bind(ps, k, c);
    forall i, j | 0 <= i < j < |r| && r[i].connection.Some? ensures r[i].connection != r[j].connection {
      if i == k {
        assert ps[j].connection != Some(c);
      } else if j == k {
        assert ps[i].connection != Some(c);
      }
    }
  }

  /** connection_closed: every record that pointed at c no longer does; no record goes away. */
  function ClearLink(ps: seq<Peer>, c: Conn): (r: seq<Peer>)
    ensures |r| == |ps|
    ensures forall i :: 0 <= i < |ps| ==> r[i].endpoint == ps[i].endpoint
    ensures forall i :: 0 <= i < |ps| && ps[i].connection != Some(c) ==> r[i] == ps[i]
    ensures !Linked(r, c)
  {
    seq(|ps|, i requires 0 <= i < |ps| =>
      if ps[i].connection == Some(c) then ps[i].(connection := None) else ps[i])
  }

  /** With distinct links, clearing c touches exactly the one record c.get_peer() names. */
  lemma ClearLinkAt(ps: seq<Peer>, k: nat, c: Conn)
    requires LinksDistinct(ps) && k < |ps| && ps[k].connection == Some(c)
    ensures ClearLink(ps, c) == ps[k := ps[k].(connection := None)]
  {
    var r := ClearLink(ps, c);
    forall i | 0 <= i < |ps| && i != k ensures r[i] == ps[i] {
      if i < k {
        assert ps[i].connection != ps[k].connection;
      } else {
        assert ps[k].connection != ps[i].connection;
      }
    }
  }

  lemma ClearLinkKeepsValid(ps: seq<Peer>, c: Conn)
    requires Valid(ps)
    ensures Valid(ClearLink(ps, c))
  {
  }

  /** Clearing a connection nothing points at changes nothing. */
  lemma ClearLinkUnlinked(ps: seq<Peer>, c: Conn)
    requires !Linked(ps, c)
    ensures ClearLink(ps, c) == ps
  {
    assert forall i :: 0 <= i < |ps| ==> ps[i].connection != Some(c);
  }

  /** Binding c to an unconnected record and then closing c restores the registry. */
  lemma BindThenClear(ps: seq<Peer>, k: nat, c: Conn)
    requires k < |ps| && ps[k].connection.None? && !Linked(ps, c)
    ensures ClearLink(Bind(ps, k, c), c) == ps
  {
    var r := ClearLink(Bind(ps, k, c), c);
    forall i | 0 <= i < |ps| ensures r[i] == ps[i] {
      if i != k {
        assert ps[i].connection != Some(c);
      }
    }
  }

  /** The links of a whole set of connections cleared at once. */
  function ClearLinks(ps: seq<Peer>, cs: set<Conn>): (r: seq<Peer>)
    ensures |r| == |ps|
    ensures forall i :: 0 <= i < |ps| ==> r[i].endpoint == ps[i].endpoint
  {
    seq(|ps|, i requires 0 <= i < |ps| =>
      if ps[i].connection.Some? && ps[i].connection.value in cs then ps[i].(connection := None) else ps[i])
  }

  /** Disconnecting one more connection extends the cleared set by it. */
  lemma ClearLinksStep(ps: seq<Peer>, cs: set<Conn>, c: Conn)
    ensures ClearLink(ClearLinks(ps, cs), c) == ClearLinks(ps, cs + {c})
  {
  }

  lemma ClearLinksKeepsValid(ps: seq<Peer>, cs: set<Conn>)
    requires Valid(ps)
    ensures Valid(ClearLinks(ps, cs))
  {
  }

  /** c.get_peer(): the record that points at c, found as the source's find_if does. */
  method FindLinked(ps: seq<Peer>, c: Conn) returns (k: nat)
    ensures k <= |ps|
    ensures forall i :: 0 <= i < k ==> ps[i].connection != Some(c)
    ensures k < |ps| ==> ps[k].connection == Some(c)
  {
    k := 0;
    while k < |ps| && ps[k].connection != Some(c)
      invariant k <= |ps|
      invariant forall i :: 0 <= i < k ==> ps[i].connection != Some(c)
    {
      k := k + 1;
    }
  }

  // ---------------------------------------------------------------------------------
  // add_peer and new_connection
  // ---------------------------------------------------------------------------------

  /** What add_peer returns (an index standing for the peer pointer) and the new registry. */
  datatype Added = Added(peer: Option<nat>, peers: seq<Peer>)

  /** add_peer for an address the IP filter lets through (lines 47-81 of policy.cpp). */
  function AddPeer(ps: seq<Peer>, ep: Endpoint, multi: bool, allocOk: bool): Added
  {
    var l := Locate(ps, ep, multi);
    if l.found then Added(Some(l.pos), ps)
    else if !allocOk then Added(None, ps)
    else Added(Some(l.pos), Insert(ps, l.pos, Peer(ep, None)))
  }

  /**
   * add_peer deduplicates: when a record matches (same address, or same endpoint with
   * several connections per IP) that record is returned and the registry does not change;
   * otherwise a new unconnected record for ep is inserted at the returned position, unless
   * the peer pool is exhausted. The registry stays sorted and duplicate-free.
   */
  lemma AddPeerCorrect(ps: seq<Peer>, ep: Endpoint, multi: bool, allocOk: bool)
    requires Valid(ps)
    ensures var r := AddPeer(ps, ep, multi, allocOk);
      && Valid(r.peers)
      && ((exists i :: 0 <= i < |ps| && Matches(ps[i], ep, multi)) ==>
            r.peers == ps && r.peer.Some? && r.peer.value < |ps| && Matches(ps[r.peer.value], ep, multi))
      && ((forall i :: 0 <= i < |ps| ==> !Matches(ps[i], ep, multi)) ==>
            if allocOk then
              && r.peer.Some? && |r.peers| == |ps| + 1
              && r.peers[r.peer.value] == Peer(ep, None)
              && r.peers[..r.peer.value] + r.peers[r.peer.value + 1..] == ps
            else r.peer == None && r.peers == ps)
  {
    LocateCorrect(ps, ep, multi);
    var l := Locate(ps, ep, multi);
    if !l.found {
      if allocOk {
        var r := Insert(ps, l.pos, Peer(ep, None));
        assert r[..l.pos] + r[l.pos + 1..] == ps;
        forall i | 0 <= i < |ps| ensures ps[i].endpoint != ep {
          assert !Matches(ps[i], ep, multi);
        }
        InsertKeepsValid(ps, l.pos, Peer(ep, None));
      }
    }
  }

  /** add_peer applied to each endpoint in turn. */
  function AddPeers(ps: seq<Peer>, eps: seq<Endpoint>, multi: bool): seq<Peer>
    decreases |eps|
  {
    if eps == [] then ps else AddPeers(AddPeer(ps, eps[0], multi, true).peers, eps[1..], multi)
  }

  /** However many add_peer calls are made, the registry stays sorted, so lower_bound stays valid. */
  lemma {:induction false} AddPeersKeepsSorted(ps: seq<Peer>, eps: seq<Endpoint>, multi: bool)
    requires Valid(ps)
    ensures Sorted(AddPeers(ps, eps, multi)) && Valid(AddPeers(ps, eps, multi))
    decreases |eps|
  {
    if eps != [] {
      AddPeerCorrect(ps, eps[0], multi, true);
      AddPeersKeepsSorted(AddPeer(ps, eps[0], multi, true).peers, eps[1..], multi);
    }
  }

  /** How new_connection settles a peer that already has `existing` when `incoming` arrives. */
  datatype Verdict = DropIncoming(reason: Reason) | DropBoth | DropExisting(reason: Reason)

  /**
   * Lines 120-159 of policy.cpp. The self-connection test compares existing's remote with
   * incoming's local endpoint and, only when those differ, existing's local with incoming's
   * remote; ec2 and ec1 hold the status of the last read made on each socket.
   */
  function Arbitrate(existing: Conn, incoming: Conn): Verdict
  {
    var firstMatch := existing.socketRemote.Value() == incoming.socketLocal.Value();
    var ec2 := if firstMatch then existing.socketRemote.ReadFailed? else existing.socketLocal.ReadFailed?;
    var ec1 := if firstMatch then incoming.socketLocal.ReadFailed? else incoming.socketRemote.ReadFailed?;
    var selfConnection := firstMatch || existing.socketLocal.Value() == incoming.socketRemote.Value();
    if ec1 then DropIncoming(SocketError)
    else if selfConnection then DropBoth
    else if ec2 then DropExisting(SocketError)
    else if !existing.connecting || incoming.local then DropIncoming(DuplicatePeerId)
    else DropExisting(DuplicatePeerId)
  }

  /** Every endpoint read of both sockets succeeds. */
  ghost predicate ReadsSucceed(a: Conn, b: Conn)
  {
    a.socketRemote.Read? && a.socketLocal.Read? && b.socketRemote.Read? && b.socketLocal.Read?
  }

  /** The two connections are the two ends of one TCP link. */
  ghost predicate CrossMatch(a: Conn, b: Conn)
  {
    a.socketRemote.Value() == b.socketLocal.Value() || a.socketLocal.Value() == b.socketRemote.Value()
  }

  /**
   * With readable endpoints a cross-match is always settled as a self-connection, and
   * the verdict is the same whichever of the two connections is the new one.
   */
  lemma SelfConnectionSymmetric(a: Conn, b: Conn)
    requires ReadsSucceed(a, b)
    ensures Arbitrate(a, b) == DropBoth <==> CrossMatch(a, b)
    ensures Arbitrate(a, b) == DropBoth <==> Arbitrate(b, a) == DropBoth
  {
  }

  /**
   * Without a cross-match and with readable endpoints, an established existing connection
   * or a new outgoing one means the new one loses with duplicate_peer_id; otherwise the
   * existing one (still connecting) loses.
   */
  lemma DuplicateArbitration(existing: Conn, incoming: Conn)
    requires ReadsSucceed(existing, incoming) && !CrossMatch(existing, incoming)
    ensures !existing.connecting || incoming.local ==> Arbitrate(existing, incoming) == DropIncoming(DuplicatePeerId)
    ensures existing.connecting && !incoming.local ==> Arbitrate(existing, incoming) == DropExisting(DuplicatePeerId)
  {
  }

  /** A disconnect request: the connection and the error it is closed with. */
  datatype Disconnection = Disconnection(conn: Conn, reason: Reason)

  /** The connections a list of disconnections closes. */
  function Closed(ds: seq<Disconnection>): set<Conn>
  {
    set i | 0 <= i < |ds| :: ds[i].conn
  }

  /** The connections of the short lists new_connection produces. */
  lemma ClosedSmall(ds: seq<Disconnection>)
    ensures |ds| == 0 ==> Closed(ds) == {}
    ensures |ds| == 1 ==> Closed(ds) == {ds[0].conn}
    ensures |ds| == 2 ==> Closed(ds) == {ds[0].conn, ds[1].conn}
  {
    if |ds| == 1 {
      assert ds[0].conn in Closed(ds);
    } else if |ds| == 2 {
      assert ds[0].conn in Closed(ds) && ds[1].conn in Closed(ds);
    }
  }

  /** The result of new_connection: the return value, the registry and, in order, the disconnections. */
  datatype Admission = Admission(ok: bool, peers: seq<Peer>, dropped: seq<Disconnection>)

  /**
   * new_connection (lines 84-191 of policy.cpp). Each disconnection clears the link its
   * connection had (connection_closed), which is why the registry below is rebuilt with
   * ClearLink after each one.
   */
  function Admit(ps: seq<Peer>, c: Conn, multi: bool, maxPeers: int, allocOk: bool): Admission
  {
    var l := Locate(ps, c.remote, multi);
    if l.found then
      var link := ps[l.pos].connection;
      if link.None? then Admission(true, Bind(ps, l.pos, c), [])
      else
        var existing := link.value;
        match Arbitrate(existing, c)
        case DropIncoming(r) =>
          Admission(false, ClearLink(ps, c), [Disconnection(c, r)])
        case DropBoth =>
          Admission(false, ClearLink(ClearLink(ps, c), existing),
                    [Disconnection(c, SelfConnection), Disconnection(existing, SelfConnection)])
        case DropExisting(r) =>
          var cleared := ClearLink(ps, existing);
          Admission(true, Bind(cleared, l.pos, c), [Disconnection(existing, r)])
    else if |ps| >= maxPeers then
      Admission(false, ClearLink(ps, c), [Disconnection(c, TooManyConnections)])
    else if !allocOk then
      Admission(false, ps, [])
    else
      var inserted := Insert(ps, l.pos, Peer(c.remote, None));
      Admission(true, Bind(inserted, l.pos, c), [])
  }

  /** The outcome of new_connection when the record found is linked: one case per verdict. */
  lemma AdmitLinkedCases(ps: seq<Peer>, c: Conn, multi: bool, maxPeers: int, allocOk: bool, pos: nat)
    requires Locate(ps, c.remote, multi) == Lookup(true, pos) && ps[pos].connection.Some?
    ensures var e, a := ps[pos].connection.value, Admit(ps, c, multi, maxPeers, allocOk);
      && (Arbitrate(e, c).DropIncoming? ==>
            a == Admission(false, ClearLink(ps, c), [Disconnection(c, Arbitrate(e, c).reason)]))
      && (Arbitrate(e, c).DropBoth? ==>
            a == Admission(false, ClearLink(ClearLink(ps, c), e),
                           [Disconnection(c, SelfConnection), Disconnection(e, SelfConnection)]))
      && (Arbitrate(e, c).DropExisting? ==>
            a == Admission(true, Bind(ClearLink(ps, e), pos, c), [Disconnection(e, Arbitrate(e, c).reason)]))
  {
  }

  /**
   * What new_connection guarantees: the registry stays valid and never loses a record; on
   * success c is bound to a record whose key matches c's remote endpoint (so that record
   * is no longer a connect candidate); on failure c is bound to nothing.
   */
  ghost predicate AdmissionSound(a: Admission, ps: seq<Peer>, c: Conn, multi: bool)
  {
    && Valid(a.peers)
    && (|a.peers| == |ps| || |a.peers| == |ps| + 1)
    && (a.ok ==> exists k :: 0 <= k < |a.peers| && a.peers[k].connection == Some(c)
                           && Matches(a.peers[k], c.remote, multi))
    && (!a.ok ==> !Linked(a.peers, c) && |a.peers| == |ps|)
  }

  lemma AdmitCorrect(ps: seq<Peer>, c: Conn, multi: bool, maxPeers: int, allocOk: bool)
    requires Valid(ps) && !Linked(ps, c)
    ensures AdmissionSound(Admit(ps, c, multi, maxPeers, allocOk), ps, c, multi)
  {
    LocateCorrect(ps, c.remote, multi);
    if Locate(ps, c.remote, multi).found {
      AdmitKnownPeer(ps, c, multi, maxPeers, allocOk);
    } else {
      AdmitUnknownPeer(ps, c, multi, maxPeers, allocOk);
    }
  }

  lemma AdmitKnownPeer(ps: seq<Peer>, c: Conn, multi: bool, maxPeers: int, allocOk: bool)
    requires Valid(ps) && !Linked(ps, c)
    requires Locate(ps, c.remote, multi).found
    requires Matches(ps[Locate(ps, c.remote, multi).pos], c.remote, multi)
    ensures AdmissionSound(Admit(ps, c, multi, maxPeers, allocOk), ps, c, multi)
  {
    var k := Locate(ps, c.remote, multi).pos;
    var link := ps[k].connection;
    if link.None? {
      BindKeepsValid(ps, k, c);
      assert Bind(ps, k, c)[k].connection == Some(c);
    } else {
      var existing := link.value;
      match Arbitrate(existing, c)
      case DropIncoming(r) =>
        ClearLinkKeepsValid(ps, c);
      case DropBoth =>
        ClearLinkKeepsValid(ps, c);
        ClearLinkKeepsValid(ClearLink(ps, c), existing);
      case DropExisting(r) =>
        var cleared := ClearLink(ps, existing);
        ClearLinkKeepsValid(ps, existing);
        assert !Linked(cleared, c);
        BindKeepsValid(cleared, k, c);
        assert Bind(cleared, k, c)[k].connection == Some(c);
    }
  }

  lemma AdmitUnknownPeer(ps: seq<Peer>, c: Conn, multi: bool, maxPeers: int, allocOk: bool)
    requires Valid(ps) && !Linked(ps, c)
    requires !Locate(ps, c.remote, multi).found
    requires InsertionPoint(ps, Locate(ps, c.remote, multi).pos, c.remote.address)
    requires forall i :: 0 <= i < |ps| ==> !Matches(ps[i], c.remote, multi)
    ensures AdmissionSound(Admit(ps, c, multi, maxPeers, allocOk), ps, c, multi)
  {
    var k := Locate(ps, c.remote, multi).pos;
    if |ps| >= maxPeers {
      ClearLinkKeepsValid(ps, c);
    } else if allocOk {
      var p := Peer(c.remote, None);
      forall i | 0 <= i < |ps| ensures ps[i].endpoint != c.remote {
        assert !Matches(ps[i], c.remote, multi);
      }
      InsertKeepsValid(ps, k, p);
      var ins := Insert(ps, k, p);
      assert !Linked(ins, c) by {
        forall i | 0 <= i < |ins| ensures ins[i].connection != Some(c) {
          if i < k { assert ins[i] == ps[i]; }
          else if i > k { assert ins[i] == ps[i - 1]; }
        }
      }
      BindKeepsValid(ins, k, c);
      assert Bind(ins, k, c)[k].connection == Some(c);
      assert Matches(Bind(ins, k, c)[k], c.remote, multi);
    }
  }

  /**
   * A connection from a peer the registry does not know, arriving when the registry holds
   * max_peerlist_size records or more, is refused with too_many_connections and the
   * registry keeps its size.
   */
  lemma AdmitAtCapacity(ps: seq<Peer>, c: Conn, multi: bool, maxPeers: int, allocOk: bool)
    requires Valid(ps) && !Linked(ps, c)
    requires forall i :: 0 <= i < |ps| ==> !Matches(ps[i], c.remote, multi)
    requires |ps| >= maxPeers
    ensures Admit(ps, c, multi, maxPeers, allocOk) == Admission(false, ps, [Disconnection(c, TooManyConnections)])
  {
    LocateCorrect(ps, c.remote, multi);
    assert ClearLink(ps, c) == ps;
  }

  /**
   * If the first matching record is linked to a connection that cross-matches the new one (and
   * the new socket's reads succeed), both are disconnected with self_connection and the
   * call fails.
   */
  lemma AdmitSelfConnection(ps: seq<Peer>, c: Conn, multi: bool, maxPeers: int, allocOk: bool, k: nat)
    requires Valid(ps) && !Linked(ps, c)
    requires k < |ps| && Matches(ps[k], c.remote, multi) && ps[k].connection.Some?
    requires forall i :: 0 <= i < k ==> !Matches(ps[i], c.remote, multi)
    requires ReadsSucceed(ps[k].connection.value, c) && CrossMatch(ps[k].connection.value, c)
    ensures var a := Admit(ps, c, multi, maxPeers, allocOk);
      && !a.ok
      && a.dropped == [Disconnection(c, SelfConnection), Disconnection(ps[k].connection.value, SelfConnection)]
      && a.peers == ps[k := ps[k].(connection := None)]
  {
    LocateCorrect(ps, c.remote, multi);
    var l := Locate(ps, c.remote, multi);
    assert ClearLink(ps, c) == ps;
    ClearLinkAt(ps, k, ps[k].connection.value);
  }

  // ---------------------------------------------------------------------------------
  // Connect candidates
  // ---------------------------------------------------------------------------------

  /** find_peer_connection(ep) in the session-wide registry finds something. */
  predicate HasSessionConnection(sessionConns: set<Conn>, ep: Endpoint)
  {
    exists c :: c in sessionConns && c.remote == ep
  }

  /** is_connect_candidate: no bound connection, and none registered session-wide for the endpoint. */
  predicate IsConnectCandidate(p: Peer, sessionConns: set<Conn>)
  {
    p.connection.None? && !HasSessionConnection(sessionConns, p.endpoint)
  }

  /** The index find_connect_candidate returns: the first candidate, or the end. */
  function FirstCandidate(ps: seq<Peer>, sessionConns: set<Conn>): (k: nat)
    ensures k <= |ps|
    ensures forall i :: 0 <= i < k ==> !IsConnectCandidate(ps[i], sessionConns)
    ensures k < |ps| ==> IsConnectCandidate(ps[k], sessionConns)
  {
    if ps == [] then 0
    else if IsConnectCandidate(ps[0], sessionConns) then 0
    else 1 + FirstCandidate(ps[1..], sessionConns)
  }

  /** find_connect_candidate: a linear scan from the first record. */
  method FindConnectCandidate(ps: seq<Peer>, sessionConns: set<Conn>) returns (k: nat)
    ensures k == FirstCandidate(ps, sessionConns)
  {
    k := 0;
    while k < |ps| && !IsConnectCandidate(ps[k], sessionConns)
      invariant k <= |ps|
      invariant forall i :: 0 <= i < k ==> !IsConnectCandidate(ps[i], sessionConns)
    {
      k := k + 1;
    }
  }

  /** A record that a connection was just bound to is not a connect candidate, whatever the session holds. */
  lemma BoundIsNoCandidate(ps: seq<Peer>, k: nat, c: Conn, sessionConns: set<Conn>)
    requires k < |ps|
    ensures !IsConnectCandidate(Bind(ps, k, c)[k], sessionConns)
    ensures FirstCandidate(Bind(ps, k, c), sessionConns) != k
  {
  }

  // ---------------------------------------------------------------------------------
  // ip_filter_updated
  // ---------------------------------------------------------------------------------

  /** The addresses, in registry order, for which ip_filter_updated posts peer_blocked. */
  function BlockedAddresses(ps: seq<Peer>, blocked: set<Address>): seq<Address>
  {
    if ps == [] then []
    else
      var last := ps[|ps| - 1];
      BlockedAddresses(ps[..|ps| - 1], blocked)
        + (if last.endpoint.address in blocked then [last.endpoint.address] else [])
  }

  /** The connections, in registry order, that ip_filter_updated disconnects. */
  function BlockedConnections(ps: seq<Peer>, blocked: set<Address>): seq<Conn>
  {
    if ps == [] then []
    else
      var last := ps[|ps| - 1];
      BlockedConnections(ps[..|ps| - 1], blocked)
        + (if last.endpoint.address in blocked && last.connection.Some? then [last.connection.value] else [])
  }

  /** The registry after ip_filter_updated: blocked records lose their link; none is removed. */
  function ClearBlocked(ps: seq<Peer>, blocked: set<Address>): (r: seq<Peer>)
    ensures |r| == |ps|
  {
    seq(|ps|, i requires 0 <= i < |ps| =>
      if ps[i].endpoint.address in blocked then ps[i].(connection := None) else ps[i])
  }

  /**
   * ip_filter_updated disconnects exactly the connections of blocked records, every record
   * survives with its endpoint, records that are not blocked are untouched, and a peer_blocked
   * notice goes out for each blocked record.
   */
  lemma IpFilterSweepCorrect(ps: seq<Peer>, blocked: set<Address>)
    ensures forall c :: c in BlockedConnections(ps, blocked) <==>
      exists i :: 0 <= i < |ps| && ps[i].endpoint.address in blocked && ps[i].connection == Some(c)
    ensures |BlockedAddresses(ps, blocked)| == |set i | 0 <= i < |ps| && ps[i].endpoint.address in blocked|
    ensures forall i :: 0 <= i < |ps| ==> ClearBlocked(ps, blocked)[i].endpoint == ps[i].endpoint
    ensures forall i :: 0 <= i < |ps| && ps[i].endpoint.address !in blocked ==> ClearBlocked(ps, blocked)[i] == ps[i]
    ensures forall i :: 0 <= i < |ps| && ps[i].endpoint.address in blocked ==> ClearBlocked(ps, blocked)[i].connection.None?
  {
    BlockedConnectionsExact(ps, blocked);
    BlockedAddressesCount(ps, blocked);
  }

  /** The connections dropped are exactly those of blocked records. */
  lemma {:induction false} BlockedConnectionsExact(ps: seq<Peer>, blocked: set<Address>)
    ensures forall c :: c in BlockedConnections(ps, blocked) <==>
      exists i :: 0 <= i < |ps| && ps[i].endpoint.address in blocked && ps[i].connection == Some(c)
  {
    if ps != [] {
      var init := ps[..|ps| - 1];
      BlockedConnectionsExact(init, blocked);
      forall c ensures c in BlockedConnections(ps, blocked) <==>
        exists i :: 0 <= i < |ps| && ps[i].endpoint.address in blocked && ps[i].connection == Some(c)
      {
        if c in BlockedConnections(ps, blocked) && c !in BlockedConnections(init, blocked) {
          assert ps[|ps| - 1].connection == Some(c);
        }
        if exists i :: 0 <= i < |ps| && ps[i].endpoint.address in blocked && ps[i].connection == Some(c) {
          var i :| 0 <= i < |ps| && ps[i].endpoint.address in blocked && ps[i].connection == Some(c);
          if i < |ps| - 1 {
            assert init[i] == ps[i];
          }
        }
      }
    }
  }

  /** One peer_blocked alert goes out per blocked record. */
  lemma {:induction false} BlockedAddressesCount(ps: seq<Peer>, blocked: set<Address>)
    ensures |BlockedAddresses(ps, blocked)| == |set i | 0 <= i < |ps| && ps[i].endpoint.address in blocked|
  {
    if ps != [] {
      var init := ps[..|ps| - 1];
      var last := ps[|ps| - 1];
      BlockedAddressesCount(init, blocked);
      var s := set i | 0 <= i < |ps| && ps[i].endpoint.address in blocked;
      var s0 := set i | 0 <= i < |init| && init[i].endpoint.address in blocked;
      if last.endpoint.address in blocked {
        assert s == s0 + {|ps| - 1};
      } else {
        assert s == s0;
      }
    }
  }

  /**
   * One record of the sweep on the registry as it stands: the record is still the
   * original one, and clearing it (when blocked) yields the registry one record further.
   */
  lemma SweepStep(p0: seq<Peer>, blocked: set<Address>, i: nat, cur: seq<Peer>)
    requires i < |p0| && cur == ClearBlocked(p0[..i], blocked) + p0[i..]
    ensures |cur| == |p0| && cur[i] == p0[i]
    ensures p0[i].endpoint.address !in blocked || p0[i].connection.None? ==>
      cur == ClearBlocked(p0[..i + 1], blocked) + p0[i + 1..]
    ensures p0[i].endpoint.address in blocked ==>
      cur[i := cur[i].(connection := None)] == ClearBlocked(p0[..i + 1], blocked) + p0[i + 1..]
  {
    ClearBlockedStep(p0, blocked, i);
    assert p0[i..] == [p0[i]] + p0[i + 1..];
  }

  /** One step of the sweep: the registry with the first i + 1 records processed. */
  lemma ClearBlockedStep(ps: seq<Peer>, blocked: set<Address>, i: nat)
    requires i < |ps|
    ensures ClearBlocked(ps[..i + 1], blocked) ==
      ClearBlocked(ps[..i], blocked) + [if ps[i].endpoint.address in blocked then ps[i].(connection := None) else ps[i]]
    ensures BlockedAddresses(ps[..i + 1], blocked) ==
      BlockedAddresses(ps[..i], blocked) + (if ps[i].endpoint.address in blocked then [ps[i].endpoint.address] else [])
    ensures BlockedConnections(ps[..i + 1], blocked) ==
      BlockedConnections(ps[..i], blocked)
        + (if ps[i].endpoint.address in blocked && ps[i].connection.Some? then [ps[i].connection.value] else [])
  {
    assert ps[..i + 1][..i] == ps[..i];
  }
}
