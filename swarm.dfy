/**
 * One transfer and its peer policy (transfer.cpp and policy.cpp) as two classes that
 * point at each other and at the session. The connections themselves are values; what
 * peer_connection::disconnect does to the core (the policy forgets the link, the
 * transfer and the session forget the connection) is Transfer.Disconnect, and the trace
 * records, in order, the disconnects, ticks and other steps whose order the source fixes.
 */
module Swarm {
  import opened Base
  import opened Net
  import opened PeerList
  import Picker
  import Session

  /** PIECE_SIZE of the eD2K network: 9500 KiB. */
  const PieceSize: nat := 9728000

  /** num_pieces: div_ceil(filesize, PIECE_SIZE), the fewest pieces that cover the file. */
  function PieceCount(fileSize: nat): (n: nat)
    ensures n * PieceSize >= fileSize && n * PieceSize < fileSize + PieceSize
    ensures n == 0 <==> fileSize == 0
  {
    DivCeilCovers(fileSize, PieceSize);
    DivCeil(fileSize, PieceSize)
  }

  /** The steps of a transfer whose order matters. */
  datatype Event =
    | Disconnected(conn: Conn, reason: Reason)   // peer_connection::disconnect
    | Ticked(conn: Conn)                         // peer_connection::second_tick returned
    | PickerDropped                              // completed(): m_picker.reset()
    | ReleaseRequested                           // m_storage->async_release_files

  /** The events of disconnecting the connections of a list, in order. */
  function Drops(ds: seq<Disconnection>): (es: seq<Event>)
    ensures |es| == |ds| && forall j :: 0 <= j < |ds| ==> es[j] == Disconnected(ds[j].conn, ds[j].reason)
  {
    seq(|ds|, j requires 0 <= j < |ds| => Disconnected(ds[j].conn, ds[j].reason))
  }

  /** The events of the at most two disconnects new_connection makes. */
  lemma DropsSmall(ds: seq<Disconnection>)
    ensures |ds| == 0 ==> Drops(ds) == []
    ensures |ds| == 1 ==> Drops(ds) == [Disconnected(ds[0].conn, ds[0].reason)]
    ensures |ds| == 2 ==> Drops(ds) == [Disconnected(ds[0].conn, ds[0].reason), Disconnected(ds[1].conn, ds[1].reason)]
  {
  }

  /** The events of disconnecting, in order, each connection of a list with one reason. */
  function DropAll(cs: seq<Conn>, r: Reason): (es: seq<Event>)
    ensures |es| == |cs| && forall j :: 0 <= j < |cs| ==> es[j] == Disconnected(cs[j], r)
  {
    seq(|cs|, j requires 0 <= j < |cs| => Disconnected(cs[j], r))
  }

  /** The peer_blocked alerts for a list of addresses, in order. */
  function BlockedAlerts(h: Session.Hash, addrs: seq<Address>): (r: seq<Session.Alert>)
    ensures |r| == |addrs| && forall j :: 0 <= j < |addrs| ==> r[j] == Session.PeerBlocked(h, addrs[j])
  {
    seq(|addrs|, j requires 0 <= j < |addrs| => Session.PeerBlocked(h, addrs[j]))
  }

  /** The connections of a list, as a set. */
  function Members(cs: seq<Conn>): set<Conn>
  {
    set c | c in cs
  }

  /** The connections that report upload_only(). */
  function UploadOnly(cs: set<Conn>): set<Conn>
  {
    set c | c in cs && c.uploadOnly
  }

  /** es disconnects every connection of cs once, with reason r, in some order, and does nothing else. */
  ghost predicate DisconnectsAll(es: seq<Event>, cs: set<Conn>, r: Reason)
  {
    && |es| == |cs|
    && (forall e :: e in es ==> e.Disconnected? && e.conn in cs && e.reason == r)
    && (forall c :: c in cs ==> Disconnected(c, r) in es)
  }

  /** What second_tick leaves in the trace for c: a tick, or a disconnect when c's second_tick throws. */
  function TickOf(c: Conn, failing: set<Conn>): Event
  {
    if c in failing then Disconnected(c, NoError) else Ticked(c)
  }

  /**
   * es is one round of second_tick over cs, in some order: each connection that does not
   * fail is ticked, each failing one is disconnected with no_error, nothing else happens.
   */
  ghost predicate TickRound(es: seq<Event>, cs: set<Conn>, failing: set<Conn>)
  {
    && |es| == |cs|
    && (forall e :: e in es ==> (e.Ticked? || e.Disconnected?) && e.conn in cs && e == TickOf(e.conn, failing))
    && (forall c :: c in cs ==> TickOf(c, failing) in es)
  }

  lemma DisconnectsAllStep(es: seq<Event>, cs: set<Conn>, c: Conn, r: Reason)
    requires DisconnectsAll(es, cs, r) && c !in cs
    ensures DisconnectsAll(es + [Disconnected(c, r)], cs + {c}, r)
  {
  }

  lemma TickRoundStep(es: seq<Event>, cs: set<Conn>, failing: set<Conn>, c: Conn)
    requires TickRound(es, cs, failing) && c !in cs
    ensures TickRound(es + [TickOf(c, failing)], cs + {c}, failing)
  {
  }

  lemma UploadOnlyStep(cs: set<Conn>, c: Conn)
    ensures c.uploadOnly ==> UploadOnly(cs + {c}) == UploadOnly(cs) + {c}
    ensures !c.uploadOnly ==> UploadOnly(cs + {c}) == UploadOnly(cs)
  {
  }

  /** One more record of the ip filter sweep, seen in the lists it produces. */
  lemma SweepListsStep(h: Session.Hash, p0: seq<Peer>, blocked: set<Address>, i: nat)
    requires i < |p0|
    ensures var before, after := BlockedConnections(p0[..i], blocked), BlockedConnections(p0[..i + 1], blocked);
      && (p0[i].endpoint.address in blocked && p0[i].connection.Some? ==>
            && after == before + [p0[i].connection.value]
            && Members(after) == Members(before) + {p0[i].connection.value}
            && DropAll(after, BannedByIpFilter) == DropAll(before, BannedByIpFilter) + [Disconnected(p0[i].connection.value, BannedByIpFilter)])
      && (!(p0[i].endpoint.address in blocked && p0[i].connection.Some?) ==> after == before)
    ensures var before, after := BlockedAddresses(p0[..i], blocked), BlockedAddresses(p0[..i + 1], blocked);
      && (p0[i].endpoint.address in blocked ==>
            BlockedAlerts(h, after) == BlockedAlerts(h, before) + [Session.PeerBlocked(h, p0[i].endpoint.address)])
      && (p0[i].endpoint.address !in blocked ==> after == before)
  {
    ClearBlockedStep(p0, blocked, i);
  }

  /** Moving one connection from the ones still to visit to the visited ones. */
  lemma VisitStep(remaining: set<Conn>, done: set<Conn>, c: Conn)
    requires c in remaining && remaining !! done
    ensures (remaining - {c}) + (done + {c}) == remaining + done && (remaining - {c}) !! (done + {c})
    ensures |done + {c}| == |done| + 1 && |remaining - {c}| < |remaining|
  {
  }

  lemma MeetStep(done: set<Conn>, failing: set<Conn>, c: Conn)
    ensures (done + {c}) * failing == if c in failing then done * failing + {c} else done * failing
  {
  }

  lemma MinusStep(x: set<Conn>, g: set<Conn>, c: Conn)
    ensures (x - g) - {c} == x - (g + {c})
  {
  }

  /** The trace of second_tick visiting connections in the given order. */
  function TicksOf(order: seq<Conn>, failing: set<Conn>): seq<Event>
  {
    if order == [] then []
    else TicksOf(order[..|order| - 1], failing) + [TickOf(order[|order| - 1], failing)]
  }

  lemma TicksOfStep(order: seq<Conn>, failing: set<Conn>, c: Conn)
    ensures TicksOf(order + [c], failing) == TicksOf(order, failing) + [TickOf(c, failing)]
  {
    assert (order + [c])[..|order|] == order;
  }

  lemma MembersStep(order: seq<Conn>, c: Conn)
    ensures Members(order + [c]) == Members(order) + {c}
  {
  }

  /** A list never has more distinct connections than elements. */
  lemma {:induction false} MembersSize(order: seq<Conn>)
    ensures |Members(order)| <= |order|
  {
    if order != [] {
      var init := order[..|order| - 1];
      MembersSize(init);
      assert order == init + [order[|order| - 1]];
      MembersStep(init, order[|order| - 1]);
    }
  }

  /** The last element of a list without repeats is new, and the rest has no repeats. */
  lemma DistinctInit(order: seq<Conn>)
    requires order != [] && |Members(order)| == |order|
    ensures var init := order[..|order| - 1];
      order[|order| - 1] !in Members(init) && |Members(init)| == |init|
  {
    var init := order[..|order| - 1];
    assert order == init + [order[|order| - 1]];
    MembersStep(init, order[|order| - 1]);
    MembersSize(init);
  }

  /** Visiting each connection of cs once, in any order, is one round of second_tick over cs. */
  lemma {:induction false} TicksOfRound(order: seq<Conn>, failing: set<Conn>)
    requires |Members(order)| == |order|
    ensures TickRound(TicksOf(order, failing), Members(order), failing)
  {
    if order != [] {
      var init, last := order[..|order| - 1], order[|order| - 1];
      DistinctInit(order);
      TicksOfRound(init, failing);
      TickRoundStep(TicksOf(init, failing), Members(init), failing, last);
      assert order == init + [last];
      MembersStep(init, last);
    }
  }

  lemma DropAllStep(cs: seq<Conn>, r: Reason, c: Conn)
    ensures DropAll(cs + [c], r) == DropAll(cs, r) + [Disconnected(c, r)]
  {
    assert |DropAll(cs + [c], r)| == |DropAll(cs, r) + [Disconnected(c, r)]|;
  }

  /** Disconnecting each connection of cs once, in any order, disconnects all of cs. */
  lemma {:induction false} DropAllDisconnects(order: seq<Conn>, r: Reason)
    requires |Members(order)| == |order|
    ensures DisconnectsAll(DropAll(order, r), Members(order), r)
  {
    if order != [] {
      var init, last := order[..|order| - 1], order[|order| - 1];
      DistinctInit(order);
      DropAllDisconnects(init, r);
      DisconnectsAllStep(DropAll(init, r), Members(init), last, r);
      assert order == init + [last];
      MembersStep(init, last);
      DropAllStep(init, r, last);
    }
  }

  /** What the ip filter sweep has produced so far: alerts, disconnect events and the connections gone. */
  datatype Sweep = Sweep(alerts: seq<Session.Alert>, drops: seq<Event>, gone: set<Conn>)

  const NoSweep: Sweep := Sweep([], [], {})

  /** The sweep one record further: a blocked record adds an alert and, when linked, a disconnect. */
  function SweepNext(s: Sweep, h: Session.Hash, p: Peer, blocked: set<Address>): Sweep
  {
    if p.endpoint.address !in blocked then s
    else if p.connection.None? then s.(alerts := s.alerts + [Session.PeerBlocked(h, p.endpoint.address)])
    else Sweep(s.alerts + [Session.PeerBlocked(h, p.endpoint.address)],
               s.drops + [Disconnected(p.connection.value, BannedByIpFilter)],
               s.gone + {p.connection.value})
  }

  /** The sweep over a whole list of records, in order. */
  function SweepOf(h: Session.Hash, ps: seq<Peer>, blocked: set<Address>): Sweep
  {
    if ps == [] then NoSweep
    else SweepNext(SweepOf(h, ps[..|ps| - 1], blocked), h, ps[|ps| - 1], blocked)
  }

  lemma SweepOfStep(h: Session.Hash, p0: seq<Peer>, blocked: set<Address>, i: nat)
    requires i < |p0|
    ensures SweepOf(h, p0[..i + 1], blocked) == SweepNext(SweepOf(h, p0[..i], blocked), h, p0[i], blocked)
  {
    assert p0[..i + 1][..i] == p0[..i];
  }

  /** Adding one record's effect after the effect so far is the sweep one record further. */
  lemma SweepNextSplit(a: seq<Session.Alert>, tr: seq<Event>, c: set<Conn>, s: Sweep, h: Session.Hash, p: Peer, blocked: set<Address>)
    ensures var d, n := SweepNext(NoSweep, h, p, blocked), SweepNext(s, h, p, blocked);
      && (a + s.alerts) + d.alerts == a + n.alerts
      && (tr + s.drops) + d.drops == tr + n.drops
      && (c - s.gone) - d.gone == c - n.gone
  {
  }

  /** The sweep produces the alerts of the blocked addresses and drops the blocked connections, in registry order. */
  lemma {:induction false} SweepOfLists(h: Session.Hash, ps: seq<Peer>, blocked: set<Address>)
    ensures SweepOf(h, ps, blocked) == Sweep(
      BlockedAlerts(h, BlockedAddresses(ps, blocked)),
      DropAll(BlockedConnections(ps, blocked), BannedByIpFilter),
      Members(BlockedConnections(ps, blocked)))
  {
    if ps != [] {
      var init := ps[..|ps| - 1];
      SweepOfLists(h, init, blocked);
      SweepListsStep(h, ps, blocked, |ps| - 1);
      assert ps[..|ps| - 1 + 1] == ps;
    }
  }

  /** is_seed: no picker any more, or a picker that has every piece. */
  function SeedPicker(p: Option<Picker.Picker>): bool
  {
    p.None? || p.value.NumHave() == p.value.numPieces
  }

  /** What the core can observe of a transfer: its picker, both connection sets, its registry and its trace. */
  datatype View = View(
    picker: Option<Picker.Picker>,
    connections: set<Conn>,
    sessionConnections: set<Conn>,
    peers: seq<Peer>,
    trace: seq<Event>)

  /**
   * finished() from view v0: completed() first when the transfer is a seed, then every
   * upload-only connection disconnected with transfer_finished, then the release of the files.
   */
  ghost predicate FinishedFrom(v0: View, v: View)
  {
    var seed := SeedPicker(v0.picker);
    var u := UploadOnly(v0.connections);
    && v.picker == (if seed then None else v0.picker)
    && v.connections == v0.connections - u
    && v.sessionConnections == v0.sessionConnections - u
    && v.peers == ClearLinks(v0.peers, u)
    && exists es :: DisconnectsAll(es, u, TransferFinished)
         && v.trace == v0.trace + (if seed then [PickerDropped] else []) + es + [ReleaseRequested]
  }

  /** piece_passed(i) from view v0: we_have(i), then finished() on the edge and only there. */
  ghost predicate PassedFrom(v0: View, i: nat, v: View)
    requires v0.picker.Some?
  {
    var p := Picker.WeHave(v0.picker.value, i);
    if Picker.FinishEdge(v0.picker.value, i) then FinishedFrom(v0.(picker := Some(p)), v)
    else v == v0.(picker := Some(p))
  }

  /**
   * After finished() no remaining connection is upload-only and no record of the registry
   * points at one of the upload-only connections the transfer had.
   */
  lemma FinishedDropsUploadOnly(v0: View, v: View)
    requires FinishedFrom(v0, v)
    ensures forall c :: c in v.connections ==> !c.uploadOnly
    ensures forall c :: c in v0.connections && c.uploadOnly ==> !Linked(v.peers, c)
    ensures |v.peers| == |v0.peers|
  {
    var u := UploadOnly(v0.connections);
    forall c | c in v0.connections && c.uploadOnly ensures !Linked(v.peers, c) {
      assert c in u;
    }
  }

  /**
   * In finished() of a seed the picker goes before any connection is disconnected, and
   * the release of the files comes last.
   */
  lemma CompletedBeforeDisconnects(v0: View, v: View)
    requires FinishedFrom(v0, v) && SeedPicker(v0.picker)
    ensures |v.trace| >= |v0.trace| + 2 && v.trace[..|v0.trace|] == v0.trace
    ensures v.trace[|v0.trace|] == PickerDropped && v.trace[|v.trace| - 1] == ReleaseRequested
    ensures forall j :: |v0.trace| < j < |v.trace| - 1 ==> v.trace[j].Disconnected? && v.trace[j].reason == TransferFinished
    ensures v.picker.None?
  {
    var u := UploadOnly(v0.connections);
    var es :| DisconnectsAll(es, u, TransferFinished) && v.trace == v0.trace + [PickerDropped] + es + [ReleaseRequested];
    forall j | |v0.trace| < j < |v.trace| - 1
      ensures v.trace[j].Disconnected? && v.trace[j].reason == TransferFinished
    {
      assert v.trace[j] == es[j - |v0.trace| - 1];
      assert es[j - |v0.trace| - 1] in es;
    }
  }

  /** policy: the peer registry of one transfer. */
  class Policy {
    var peers: seq<Peer>      // m_peers
    var owner: Transfer?      // m_transfer

    constructor()
      ensures peers == [] && owner == null
    {
      peers := [];
      owner := null;
    }

    /** The policy is the one of a consistent transfer. */
    ghost predicate Attached()
      reads this, owner
    {
      owner != null && owner.policy == this && owner.Valid()
    }

    /** The lookup of add_peer and new_connection, with the binary searches of the sorted registry. */
    method Find(ep: Endpoint, multi: bool) returns (l: Lookup)
      requires Sorted(peers)
      ensures l == Locate(peers, ep, multi)
    {
      if multi {
        var lo := SearchLowerBound(peers, ep.address);
        var hi := SearchUpperBound(peers, ep.address);
        var k := ScanForEndpoint(peers, lo, hi, ep);
        l := Lookup(k < hi, k);
      } else {
        var k := SearchLowerBound(peers, ep.address);
        l := Lookup(k < |peers| && peers[k].endpoint.address == ep.address, k);
      }
    }

    /**
     * add_peer(ep); allocOk says whether the peer pool has memory. The result is the
     * position of the peer's record, standing for the peer pointer.
     */
    method AddPeer(ep: Endpoint, allocOk: bool) returns (p: Option<nat>)
      requires Attached()
      modifies this`peers, owner.ses`alerts
      ensures Attached() && Valid(peers)
      ensures ep.address in owner.ses.ipFilter ==>
        && p == None && peers == old(peers)
        && owner.ses.alerts == old(owner.ses.alerts) + [Session.PeerBlocked(owner.hash, ep.address)]
      ensures ep.address !in owner.ses.ipFilter ==>
        && Added(p, peers) == PeerList.AddPeer(old(peers), ep, owner.ses.settings.allowMultipleConnectionsPerIp, allocOk)
        && owner.ses.alerts == old(owner.ses.alerts)
    {
      var ses := owner.ses;
      if ep.address in ses.ipFilter {
        ses.alerts := ses.alerts + [Session.PeerBlocked(owner.hash, ep.address)];
        return None;
      }
      var multi := ses.settings.allowMultipleConnectionsPerIp;
      AddPeerCorrect(peers, ep, multi, allocOk);
      var l := Find(ep, multi);
      if !l.found {
        if !allocOk {
          return None;
        }
        peers := Insert(peers, l.pos, Peer(ep, None));
      }
      p := Some(l.pos);
    }

    /**
     * new_connection(c); allocOk says whether the peer pool has memory. Every step is the
     * one Admit describes, and each connection it drops is disconnected in that order.
     */
    method NewConnection(c: Conn, allocOk: bool) returns (ok: bool)
      requires Attached() && !Linked(peers, c)
      modifies this`peers, owner`connections, owner`trace, owner.ses`connections
      ensures Attached()
      ensures var a := Admit(old(peers), c, owner.ses.settings.allowMultipleConnectionsPerIp,
                             owner.ses.settings.maxPeerlistSize, allocOk);
        && ok == a.ok && peers == a.peers
        && owner.trace == old(owner.trace) + Drops(a.dropped)
        && owner.connections == old(owner.connections) - Closed(a.dropped)
        && owner.ses.connections == old(owner.ses.connections) - Closed(a.dropped)
    {
      var l := Find(c.remote, owner.ses.settings.allowMultipleConnectionsPerIp);
      if l.found {
        ok := AdmitKnown(c, allocOk, l.pos);
      } else {
        ok := AdmitUnknown(c, allocOk, l.pos);
      }
    }

    /** new_connection when the registry has a record for c's endpoint, at position pos. */
    method AdmitKnown(c: Conn, allocOk: bool, pos: nat) returns (ok: bool)
      requires Attached() && !Linked(peers, c)
      requires Locate(peers, c.remote, owner.ses.settings.allowMultipleConnectionsPerIp) == Lookup(true, pos)
      modifies this`peers, owner`connections, owner`trace, owner.ses`connections
      ensures Attached()
      ensures var a := Admit(old(peers), c, owner.ses.settings.allowMultipleConnectionsPerIp,
                             owner.ses.settings.maxPeerlistSize, allocOk);
        && ok == a.ok && peers == a.peers
        && owner.trace == old(owner.trace) + Drops(a.dropped)
        && owner.connections == old(owner.connections) - Closed(a.dropped)
        && owner.ses.connections == old(owner.ses.connections) - Closed(a.dropped)
    {
      if peers[pos].connection.Some? {
        ok := AdmitLinked(c, allocOk, pos);
      } else {
        var t := owner;
        AdmitCorrect(peers, c, t.ses.settings.allowMultipleConnectionsPerIp, t.ses.settings.maxPeerlistSize, allocOk);
        peers := Bind(peers, pos, c);
        ok := true;
      }
    }

    /** new_connection when the matching record already has a connection: the two are arbitrated. */
    method AdmitLinked(c: Conn, allocOk: bool, pos: nat) returns (ok: bool)
      requires Attached() && !Linked(peers, c)
      requires Locate(peers, c.remote, owner.ses.settings.allowMultipleConnectionsPerIp) == Lookup(true, pos)
      requires peers[pos].connection.Some?
      modifies this`peers, owner`connections, owner`trace, owner.ses`connections
      ensures Attached()
      ensures var a := Admit(old(peers), c, owner.ses.settings.allowMultipleConnectionsPerIp,
                             owner.ses.settings.maxPeerlistSize, allocOk);
        && ok == a.ok && peers == a.peers
        && owner.trace == old(owner.trace) + Drops(a.dropped)
        && owner.connections == old(owner.connections) - Closed(a.dropped)
        && owner.ses.connections == old(owner.ses.connections) - Closed(a.dropped)
    {
      var existing := peers[pos].connection.value;
      match Arbitrate(existing, c)
      case DropIncoming(r) =>
        ok := RefuseIncoming(c, allocOk, pos);
      case DropBoth =>
        ok := RefuseSelfConnection(c, allocOk, pos);
      case DropExisting(r) =>
        ok := ReplaceExisting(c, allocOk, pos);
    }

    /** The verdict keeps the existing connection: the new one is disconnected. */
    method RefuseIncoming(c: Conn, allocOk: bool, pos: nat) returns (ok: bool)
      requires Attached() && !Linked(peers, c)
      requires Locate(peers, c.remote, owner.ses.settings.allowMultipleConnectionsPerIp) == Lookup(true, pos)
      requires peers[pos].connection.Some?
      requires Arbitrate(peers[pos].connection.value, c).DropIncoming?
      modifies this`peers, owner`connections, owner`trace, owner.ses`connections
      ensures Attached()
      ensures var a := Admit(old(peers), c, owner.ses.settings.allowMultipleConnectionsPerIp,
                             owner.ses.settings.maxPeerlistSize, allocOk);
        && ok == a.ok && peers == a.peers
        && owner.trace == old(owner.trace) + Drops(a.dropped)
        && owner.connections == old(owner.connections) - Closed(a.dropped)
        && owner.ses.connections == old(owner.ses.connections) - Closed(a.dropped)
    {
      var t := owner;
      var r := Arbitrate(peers[pos].connection.value, c).reason;
      AdmitLinkedCases(peers, c, t.ses.settings.allowMultipleConnectionsPerIp, t.ses.settings.maxPeerlistSize, allocOk, pos);
      ClosedSmall([Disconnection(c, r)]);
      DropsSmall([Disconnection(c, r)]);
      t.Disconnect(c, r);
      ok := false;
    }

    /** A self-connection: both ends are disconnected. */
    method RefuseSelfConnection(c: Conn, allocOk: bool, pos: nat) returns (ok: bool)
      requires Attached() && !Linked(peers, c)
      requires Locate(peers, c.remote, owner.ses.settings.allowMultipleConnectionsPerIp) == Lookup(true, pos)
      requires peers[pos].connection.Some?
      requires Arbitrate(peers[pos].connection.value, c).DropBoth?
      modifies this`peers, owner`connections, owner`trace, owner.ses`connections
      ensures Attached()
      ensures var a := Admit(old(peers), c, owner.ses.settings.allowMultipleConnectionsPerIp,
                             owner.ses.settings.maxPeerlistSize, allocOk);
        && ok == a.ok && peers == a.peers
        && owner.trace == old(owner.trace) + Drops(a.dropped)
        && owner.connections == old(owner.connections) - Closed(a.dropped)
        && owner.ses.connections == old(owner.ses.connections) - Closed(a.dropped)
    {
      var t := owner;
      var existing := peers[pos].connection.value;
      AdmitLinkedCases(peers, c, t.ses.settings.allowMultipleConnectionsPerIp, t.ses.settings.maxPeerlistSize, allocOk, pos);
      ClosedSmall([Disconnection(c, SelfConnection), Disconnection(existing, SelfConnection)]);
      DropsSmall([Disconnection(c, SelfConnection), Disconnection(existing, SelfConnection)]);
      t.DisconnectBoth(c, existing, SelfConnection);
      ok := false;
    }

    /** The verdict keeps the new connection: the existing one is disconnected and the record rebound. */
    method ReplaceExisting(c: Conn, allocOk: bool, pos: nat) returns (ok: bool)
      requires Attached() && !Linked(peers, c)
      requires Locate(peers, c.remote, owner.ses.settings.allowMultipleConnectionsPerIp) == Lookup(true, pos)
      requires peers[pos].connection.Some?
      requires Arbitrate(peers[pos].connection.value, c).DropExisting?
      modifies this`peers, owner`connections, owner`trace, owner.ses`connections
      ensures Attached()
      ensures var a := Admit(old(peers), c, owner.ses.settings.allowMultipleConnectionsPerIp,
                             owner.ses.settings.maxPeerlistSize, allocOk);
        && ok == a.ok && peers == a.peers
        && owner.trace == old(owner.trace) + Drops(a.dropped)
        && owner.connections == old(owner.connections) - Closed(a.dropped)
        && owner.ses.connections == old(owner.ses.connections) - Closed(a.dropped)
    {
      var t := owner;
      var existing := peers[pos].connection.value;
      var r := Arbitrate(existing, c).reason;
      AdmitLinkedCases(peers, c, t.ses.settings.allowMultipleConnectionsPerIp, t.ses.settings.maxPeerlistSize, allocOk, pos);
      ClosedSmall([Disconnection(existing, r)]);
      DropsSmall([Disconnection(existing, r)]);
      t.Disconnect(existing, r);
      AdmitCorrect(old(peers), c, t.ses.settings.allowMultipleConnectionsPerIp, t.ses.settings.maxPeerlistSize, allocOk);
      peers := Bind(peers, pos, c);
      ok := true;
    }

    /** new_connection when no record matches c's endpoint; pos is where a new record goes. */
    method AdmitUnknown(c: Conn, allocOk: bool, pos: nat) returns (ok: bool)
      requires Attached() && !Linked(peers, c)
      requires Locate(peers, c.remote, owner.ses.settings.allowMultipleConnectionsPerIp) == Lookup(false, pos)
      modifies this`peers, owner`connections, owner`trace, owner.ses`connections
      ensures Attached()
      ensures var a := Admit(old(peers), c, owner.ses.settings.allowMultipleConnectionsPerIp,
                             owner.ses.settings.maxPeerlistSize, allocOk);
        && ok == a.ok && peers == a.peers
        && owner.trace == old(owner.trace) + Drops(a.dropped)
        && owner.connections == old(owner.connections) - Closed(a.dropped)
        && owner.ses.connections == old(owner.ses.connections) - Closed(a.dropped)
    {
      var t := owner;
      ghost var a := Admit(peers, c, t.ses.settings.allowMultipleConnectionsPerIp, t.ses.settings.maxPeerlistSize, allocOk);
      ClosedSmall(a.dropped);
      DropsSmall(a.dropped);
      if |peers| >= t.ses.settings.maxPeerlistSize {
        assert Closed(a.dropped) == {c};
        t.Disconnect(c, TooManyConnections);
        return false;
      }
      assert Closed(a.dropped) == {};
      if !allocOk {
        return false;
      }
      AdmitCorrect(peers, c, t.ses.settings.allowMultipleConnectionsPerIp, t.ses.settings.maxPeerlistSize, allocOk);
      peers := Bind(Insert(peers, pos, Peer(c.remote, None)), pos, c);
      ok := true;
    }

    /** connection_closed(c): the record c.get_peer() names forgets c; no record is removed. */
    method ConnectionClosed(c: Conn)
      requires LinksDistinct(peers)
      modifies this`peers
      ensures peers == ClearLink(old(peers), c)
    {
      var k := FindLinked(peers, c);
      if k == |peers| {
        ClearLinkUnlinked(peers, c);
        return;
      }
      ClearLinkAt(peers, k, c);
      peers := peers[k := peers[k].(connection := None)];
    }

    /**
     * ip_filter_updated: a peer_blocked alert for every blocked record and a disconnect
     * with banned_by_ip_filter for every blocked record that has a connection, in
     * registry order; every record stays.
     */
    method IpFilterUpdated()
      requires Attached()
      modifies this`peers, owner`connections, owner`trace, owner.ses`connections, owner.ses`alerts
      ensures Attached()
      ensures var blocked := owner.ses.ipFilter;
        && peers == ClearBlocked(old(peers), blocked)
        && owner.ses.alerts == old(owner.ses.alerts) + BlockedAlerts(owner.hash, BlockedAddresses(old(peers), blocked))
        && owner.trace == old(owner.trace) + DropAll(BlockedConnections(old(peers), blocked), BannedByIpFilter)
        && owner.connections == old(owner.connections) - Members(BlockedConnections(old(peers), blocked))
        && owner.ses.connections == old(owner.ses.connections) - Members(BlockedConnections(old(peers), blocked))
    {
      ghost var p0 := peers;
      SweepRecords(owner.ses.ipFilter);
      SweepOfLists(owner.hash, p0, owner.ses.ipFilter);
    }

    /** The loop of ip_filter_updated over the registry in order, seen through the sweep it produces. */
    method SweepRecords(blocked: set<Address>)
      requires Attached()
      modifies this`peers, owner`connections, owner`trace, owner.ses`connections, owner.ses`alerts
      ensures Attached() && owner == old(owner)
      ensures var s := SweepOf(owner.hash, old(peers), blocked);
        && peers == ClearBlocked(old(peers), blocked)
        && owner.ses.alerts == old(owner.ses.alerts) + s.alerts
        && owner.trace == old(owner.trace) + s.drops
        && owner.connections == old(owner.connections) - s.gone
        && owner.ses.connections == old(owner.ses.connections) - s.gone
    {
      var t := owner;
      var ses := t.ses;
      ghost var p0 := peers;
      ghost var alerts0, trace0, conns0, sesConns0 := ses.alerts, t.trace, t.connections, ses.connections;
      ghost var st := NoSweep;
      var i := 0;
      while i < |peers|
        invariant 0 <= i <= |peers| == |p0|
        invariant peers == ClearBlocked(p0[..i], blocked) + p0[i..]
        invariant owner == t && Attached()
        invariant st == SweepOf(t.hash, p0[..i], blocked)
        invariant ses.alerts == alerts0 + st.alerts && t.trace == trace0 + st.drops
        invariant t.connections == conns0 - st.gone && ses.connections == sesConns0 - st.gone
      {
        SweepStep(p0, blocked, i, peers);
        SweepOfStep(t.hash, p0, blocked, i);
        SweepNextSplit(alerts0, trace0, conns0, st, t.hash, p0[i], blocked);
        SweepNextSplit(alerts0, trace0, sesConns0, st, t.hash, p0[i], blocked);
        SweepRecord(i, blocked);
        st := SweepNext(st, t.hash, p0[i], blocked);
        i := i + 1;
      }
      assert p0[..i] == p0;
    }

    /**
     * The body of the ip_filter_updated loop for record i: a blocked record raises a
     * peer_blocked alert and, when it has a connection, that connection is disconnected.
     */
    method SweepRecord(i: nat, blocked: set<Address>)
      requires Attached() && i < |peers|
      modifies this`peers, owner`connections, owner`trace, owner.ses`connections, owner.ses`alerts
      ensures Attached() && owner == old(owner)
      ensures var p, t := old(peers[i]), owner;
        var d := SweepNext(NoSweep, t.hash, p, blocked);
        && t.ses.alerts == old(t.ses.alerts) + d.alerts
        && t.trace == old(t.trace) + d.drops
        && t.connections == old(t.connections) - d.gone
        && t.ses.connections == old(t.ses.connections) - d.gone
        && peers == if p.endpoint.address in blocked && p.connection.Some? then old(peers)[i := p.(connection := None)] else old(peers)
    {
      var t := owner;
      var p := peers[i];
      if p.endpoint.address in blocked {
        t.ses.alerts := t.ses.alerts + [Session.PeerBlocked(t.hash, p.endpoint.address)];
        if p.connection.Some? {
          ClearLinkAt(peers, i, p.connection.value);
          t.Disconnect(p.connection.value, BannedByIpFilter);
        }
      }
    }

    /** set_connection(p, c), the record p given by its position. */
    method SetConnection(k: nat, c: Option<Conn>)
      requires k < |peers|
      modifies this`peers
      ensures peers == old(peers)[k := old(peers)[k].(connection := c)]
    {
      peers := peers[k := peers[k].(connection := c)];
    }

    /**
     * connect_one_peer: connects to the first connect candidate, if any, with a new
     * outgoing connection numbered `id`, whose socket reports no endpoint yet;
     * enqueueOk says whether the half-open queue accepts it.
     */
    method ConnectOnePeer(id: nat, enqueueOk: bool) returns (ok: bool)
      requires Attached()
      requires forall d :: d in owner.connections ==> d.id != id
      requires forall d :: d in owner.ses.connections ==> d.id != id
      requires forall i :: 0 <= i < |peers| && peers[i].connection.Some? ==> peers[i].connection.value.id != id
      modifies this`peers, owner`connections, owner`trace, owner.ses`connections
      ensures Attached()
      ensures var k := FirstCandidate(old(peers), old(owner.ses.connections));
        && (k == |old(peers)| ==>
              !ok && peers == old(peers) && owner.connections == old(owner.connections)
              && owner.ses.connections == old(owner.ses.connections) && owner.trace == old(owner.trace))
        && (k < |old(peers)| ==>
              var c := Conn(id, old(peers)[k].endpoint, ReadFailed, ReadFailed, true, true, false);
              && ok == enqueueOk
              && (enqueueOk ==>
                    && peers == Bind(old(peers), k, c) && owner.trace == old(owner.trace)
                    && owner.connections == old(owner.connections) + {c}
                    && owner.ses.connections == old(owner.ses.connections) + {c})
              && (!enqueueOk ==>
                    && peers == old(peers) && owner.trace == old(owner.trace) + [Disconnected(c, NoError)]
                    && owner.connections == old(owner.connections)
                    && owner.ses.connections == old(owner.ses.connections)))
    {
      var t := owner;
      var k := FindConnectCandidate(peers, t.ses.connections);
      if k == |peers| {
        return false;
      }
      var c := Conn(id, peers[k].endpoint, ReadFailed, ReadFailed, true, true, false);
      ok := t.ConnectToPeer(k, c, enqueueOk);
    }
  }

  /** transfer: one download or upload of one file. */
  class Transfer {
    const ses: Session.Session              // m_ses
    const hash: Session.Hash                // the file hash its handle names
    const seedMode: bool                    // m_seed_mode
    const fileSize: nat                     // m_filesize
    const policy: Policy                    // m_policy
    var paused: bool                        // m_paused
    var aborted: bool                       // m_abort
    var picker: Option<Picker.Picker>       // m_picker
    var connections: set<Conn>              // m_connections
    var trace: seq<Event>

    /** The policy is this transfer's, its registry is consistent, and a picker covers the file. */
    ghost predicate Valid()
      reads this`picker, policy`owner, policy`peers
    {
      && policy.owner == this
      && PeerList.Valid(policy.peers)
      && (picker.Some? ==> picker.value.Valid() && picker.value.numPieces == NumPieces())
    }

    constructor(s: Session.Session, h: Session.Hash, seed: bool, size: nat)
      ensures Valid() && fresh(policy)
      ensures ses == s && hash == h && seedMode == seed && fileSize == size
      ensures !paused && !aborted && picker.None? && connections == {} && trace == [] && policy.peers == []
    {
      ses, hash, seedMode, fileSize := s, h, seed, size;
      policy := new Policy();
      paused, aborted := false, false;
      picker := None;
      connections := {};
      trace := [];
      new;
      policy.owner := this;
    }

    /** num_pieces. */
    function NumPieces(): nat
    {
      PieceCount(fileSize)
    }

    /** num_have: the picker's count, or every piece without a picker. */
    function NumHave(): nat
      reads this
    {
      if picker.Some? then picker.value.NumHave() else NumPieces()
    }

    /** is_seed. */
    function IsSeed(): bool
      reads this
    {
      SeedPicker(picker)
    }

    /** is_finished: a seed, or no piece left to download (no piece is filtered). */
    function IsFinished(): bool
      reads this
    {
      IsSeed() || NumPieces() - NumHave() == 0
    }

    /** is_paused. */
    function IsPaused(): bool
      reads this, ses
    {
      paused || ses.paused
    }

    /** want_more_peers: neither this transfer nor the session is paused, and the transfer is not aborted. */
    function WantMorePeers(): (r: bool)
      reads this, ses
      ensures r <==> !paused && !ses.paused && !aborted
    {
      !IsPaused() && !aborted
    }

    function Snapshot(): View
      reads this, policy, ses
    {
      View(picker, connections, ses.connections, policy.peers, trace)
    }

    /**
     * start, with the picker part of init: outside seed mode a fresh picker of
     * num_pieces pieces, none had.
     */
    method Start()
      requires Valid()
      modifies this`picker
      ensures Valid()
      ensures !seedMode ==> picker == Some(Picker.Init(NumPieces()))
      ensures seedMode ==> picker == old(picker)
    {
      if !seedMode {
        picker := Some(Picker.Init(NumPieces()));
      }
    }

    /**
     * peer_connection::disconnect as the core sees it: the policy forgets the link
     * (connection_closed), the transfer and the session forget the connection.
     */
    method Disconnect(c: Conn, r: Reason)
      requires Valid()
      modifies this`connections, this`trace, policy`peers, ses`connections
      ensures Valid()
      ensures connections == old(connections) - {c} && ses.connections == old(ses.connections) - {c}
      ensures policy.peers == ClearLink(old(policy.peers), c)
      ensures trace == old(trace) + [Disconnected(c, r)]
    {
      ClearLinkKeepsValid(policy.peers, c);
      policy.ConnectionClosed(c);
      connections := connections - {c};
      ses.CloseConnection(c);
      trace := trace + [Disconnected(c, r)];
    }

    /** Two connections disconnected in turn with one reason, as a self-connection is. */
    method DisconnectBoth(c: Conn, d: Conn, r: Reason)
      requires Valid()
      modifies this`connections, this`trace, policy`peers, ses`connections
      ensures Valid()
      ensures connections == old(connections) - {c, d} && ses.connections == old(ses.connections) - {c, d}
      ensures policy.peers == ClearLink(ClearLink(old(policy.peers), c), d)
      ensures trace == old(trace) + [Disconnected(c, r), Disconnected(d, r)]
    {
      Disconnect(c, r);
      Disconnect(d, r);
    }

    /**
     * connect_to_peer(peer k) with the new connection c; enqueueOk says whether the
     * half-open queue accepts it. On refusal the connection is rolled back.
     */
    method ConnectToPeer(k: nat, c: Conn, enqueueOk: bool) returns (ok: bool)
      requires Valid() && k < |policy.peers| && policy.peers[k].connection.None?
      requires !Linked(policy.peers, c) && c !in connections && c !in ses.connections
      modifies this`connections, this`trace, policy`peers, ses`connections
      ensures Valid()
      ensures ok == enqueueOk
      ensures enqueueOk ==>
        && connections == old(connections) + {c} && ses.connections == old(ses.connections) + {c}
        && policy.peers == Bind(old(policy.peers), k, c) && trace == old(trace)
      ensures !enqueueOk ==>
        && connections == old(connections) && ses.connections == old(ses.connections)
        && policy.peers == old(policy.peers) && trace == old(trace) + [Disconnected(c, NoError)]
    {
      connections := connections + {c};
      ses.connections := ses.connections + {c};
      BindKeepsValid(policy.peers, k, c);
      BindThenClear(policy.peers, k, c);
      policy.SetConnection(k, Some(c));
      if !enqueueOk {
        connections := connections - {c};
        Disconnect(c, NoError);
        return false;
      }
      ok := policy.peers[k].connection.Some?;
    }

    /** we_have(i). */
    method WeHave(i: nat)
      requires Valid() && picker.Some? && i < picker.value.numPieces
      modifies this`picker
      ensures Valid() && picker == Some(Picker.WeHave(old(picker).value, i))
    {
      Picker.WeHaveCounts(picker.value, i);
      picker := Some(Picker.WeHave(picker.value, i));
    }

    /** completed: the picker goes. */
    method Completed()
      requires Valid()
      modifies this`picker, this`trace
      ensures Valid() && picker.None? && trace == old(trace) + [PickerDropped]
    {
      picker := None;
      trace := trace + [PickerDropped];
    }

    /** finished: completed() for a seed, then the upload-only connections go, then the files are released. */
    method Finished()
      requires Valid()
      modifies this`picker, this`connections, this`trace, policy`peers, ses`connections
      ensures Valid()
      ensures FinishedFrom(old(Snapshot()), Snapshot())
    {
      ghost var v0 := Snapshot();
      if IsSeed() {
        Completed();
      }
      ghost var es := DisconnectUploadOnly();
      trace := trace + [ReleaseRequested];
      assert Snapshot().trace == v0.trace + (if SeedPicker(v0.picker) then [PickerDropped] else []) + es + [ReleaseRequested];
    }

    /** The loop of finished over m_connections: each upload-only connection is disconnected with transfer_finished. */
    method DisconnectUploadOnly() returns (ghost es: seq<Event>)
      requires Valid()
      modifies this`connections, this`trace, policy`peers, ses`connections
      ensures Valid()
      ensures var u := UploadOnly(old(connections));
        && connections == old(connections) - u && ses.connections == old(ses.connections) - u
        && policy.peers == ClearLinks(old(policy.peers), u)
        && DisconnectsAll(es, u, TransferFinished) && trace == old(trace) + es
    {
      ghost var order := DropEachUploadOnly();
      DropAllDisconnects(order, TransferFinished);
      es := DropAll(order, TransferFinished);
    }

    /** The same loop, recording the order in which it disconnects. */
    method DropEachUploadOnly() returns (ghost order: seq<Conn>)
      requires Valid()
      modifies this`connections, this`trace, policy`peers, ses`connections
      ensures Valid()
      ensures var u := UploadOnly(old(connections));
        && Members(order) == u && |order| == |u|
        && connections == old(connections) - u && ses.connections == old(ses.connections) - u
        && policy.peers == ClearLinks(old(policy.peers), u)
        && trace == old(trace) + DropAll(order, TransferFinished)
    {
      var remaining := connections;
      ghost var done: set<Conn> := {};
      ghost var gone: set<Conn> := {};
      order := [];
      while remaining != {}
        invariant remaining + done == old(connections) && remaining !! done
        invariant gone == UploadOnly(done)
        invariant Valid()
        invariant connections == old(connections) - gone
        invariant ses.connections == old(ses.connections) - gone
        invariant policy.peers == ClearLinks(old(policy.peers), gone)
        invariant Members(order) == gone && |order| == |gone|
        invariant trace == old(trace) + DropAll(order, TransferFinished)
        decreases |remaining|
      {
        var c :| c in remaining;
        VisitStep(remaining, done, c);
        UploadOnlyStep(done, c);
        if c.uploadOnly {
          ClearLinksStep(old(policy.peers), gone, c);
          MinusStep(old(connections), gone, c);
          MinusStep(old(ses.connections), gone, c);
          DropAllStep(order, TransferFinished, c);
          MembersStep(order, c);
          AppendOne(old(trace), DropAll(order, TransferFinished), Disconnected(c, TransferFinished));
          Disconnect(c, TransferFinished);
          order := order + [c];
          gone := gone + {c};
        }
        remaining := remaining - {c};
        done := done + {c};
      }
    }

    /** piece_passed(i). */
    method PiecePassed(i: nat)
      requires Valid() && picker.Some? && i < picker.value.numPieces
      modifies this`picker, this`connections, this`trace, policy`peers, ses`connections
      ensures Valid()
      ensures PassedFrom(old(Snapshot()), i, Snapshot())
    {
      var wasFinished := NumHave() == NumPieces();
      WeHave(i);
      if !wasFinished && IsFinished() {
        Finished();
      }
    }

    /**
     * piece_finished(i, result): result 0 passes the piece, -2 calls the empty
     * piece_failed, anything else restores the piece; nothing happens when the picker
     * no longer reports the piece as finished.
     */
    method PieceFinished(i: nat, result: int)
      requires Valid() && picker.Some? && i < picker.value.numPieces
      modifies this`picker, this`connections, this`trace, policy`peers, ses`connections
      ensures Valid()
      ensures var p0 := old(picker).value;
        && (!p0.IsPieceFinished(i) || result == -2 ==> Snapshot() == old(Snapshot()))
        && (p0.IsPieceFinished(i) && result == 0 ==> PassedFrom(old(Snapshot()), i, Snapshot()))
        && (p0.IsPieceFinished(i) && result != 0 && result != -2 ==>
              Snapshot() == old(Snapshot()).(picker := Some(Picker.Restore(p0, i))))
    {
      if !picker.value.IsPieceFinished(i) {
        return;
      }
      if result == 0 {
        PiecePassed(i);
      } else if result == -2 {
        // piece_failed is empty
      } else {
        Picker.RestoreKeeps(picker.value, i);
        picker := Some(Picker.Restore(picker.value, i));
        // restore_piece_state is empty
      }
    }

    /** peer_connection::second_tick on c inside second_tick's try block; `fails` says whether it throws. */
    method TickOne(c: Conn, fails: bool)
      requires Valid()
      modifies this`connections, this`trace, policy`peers, ses`connections
      ensures Valid()
      ensures fails ==>
        && connections == old(connections) - {c} && ses.connections == old(ses.connections) - {c}
        && policy.peers == ClearLink(old(policy.peers), c) && trace == old(trace) + [Disconnected(c, NoError)]
      ensures !fails ==>
        && connections == old(connections) && ses.connections == old(ses.connections)
        && policy.peers == old(policy.peers) && trace == old(trace) + [Ticked(c)]
    {
      if fails {
        Disconnect(c, NoError);
      } else {
        trace := trace + [Ticked(c)];
      }
    }

    /**
     * second_tick, given the connections whose second_tick throws: those are
     * disconnected with no_error and every other connection is still ticked.
     */
    method SecondTick(failing: set<Conn>) returns (ghost es: seq<Event>)
      requires Valid()
      modifies this`connections, this`trace, policy`peers, ses`connections
      ensures Valid()
      ensures var f := old(connections) * failing;
        && connections == old(connections) - f
        && ses.connections == old(ses.connections) - f
        && policy.peers == ClearLinks(old(policy.peers), f)
        && TickRound(es, old(connections), failing) && trace == old(trace) + es
    {
      ghost var order := TickEach(failing);
      TicksOfRound(order, failing);
      es := TicksOf(order, failing);
    }

    /** The loop of second_tick over m_connections, recording the order in which it visits them. */
    method TickEach(failing: set<Conn>) returns (ghost order: seq<Conn>)
      requires Valid()
      modifies this`connections, this`trace, policy`peers, ses`connections
      ensures Valid()
      ensures Members(order) == old(connections) && |order| == |old(connections)|
      ensures var f := old(connections) * failing;
        && connections == old(connections) - f
        && ses.connections == old(ses.connections) - f
        && policy.peers == ClearLinks(old(policy.peers), f)
        && trace == old(trace) + TicksOf(order, failing)
    {
      var remaining := connections;
      ghost var done: set<Conn> := {};
      ghost var gone: set<Conn> := {};
      order := [];
      while remaining != {}
        invariant remaining + done == old(connections) && remaining !! done
        invariant gone == done * failing
        invariant Valid()
        invariant connections == old(connections) - gone
        invariant ses.connections == old(ses.connections) - gone
        invariant policy.peers == ClearLinks(old(policy.peers), gone)
        invariant Members(order) == done && |order| == |done|
        invariant trace == old(trace) + TicksOf(order, failing)
        decreases |remaining|
      {
        var c :| c in remaining;
        VisitStep(remaining, done, c);
        MeetStep(done, failing, c);
        TicksOfStep(order, failing, c);
        MembersStep(order, c);
        AppendOne(old(trace), TicksOf(order, failing), TickOf(c, failing));
        if c in failing {
          ClearLinksStep(old(policy.peers), gone, c);
          MinusStep(old(connections), gone, c);
          MinusStep(old(ses.connections), gone, c);
          TickOne(c, true);
          gone := gone + {c};
        } else {
          TickOne(c, false);
        }
        order := order + [c];
        remaining := remaining - {c};
        done := done + {c};
      }
    }
  }
}
