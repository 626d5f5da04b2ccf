/**
 * The bookkeeping part of session_impl: the transfer map and its queue positions, the
 * queue of transfers waiting for their file check, the session-wide connection registry,
 * send-buffer rounding, the announce and reconnect timers, the fair-share computation of
 * update_connections_limit, and the settings clamps. Calls the session makes into code
 * outside this model (transfer::do_pause, the server connection, disconnect_peers, ...)
 * are recorded, in order, in the `calls` log.
 */
module Session {
  import opened Base
  import opened Net

  type Hash = nat

  /** session_impl.hpp's send_buffer_size. */
  const SendBufferSize: int := 128

  /**
   * What the session knows of one transfer in m_transfers. `numPeers` and `announceable` are a
   * snapshot of the live queries transfer::num_peers() and !transfer::getAnnounce().is_empty(),
   * supplied by the environment: nothing in this module updates them.
   */
  datatype TransferEntry = TransferEntry(hash: Hash, queuePosition: int, numPeers: nat, announced: bool, announceable: bool)

  /** An element of m_queued_for_checking: a transfer, its queue position and whether it is checking its files. */
  datatype QueuedCheck = QueuedCheck(hash: Hash, position: int, checking: bool)

  datatype Alert = AddedTransfer(hash: Hash) | DeletedTransfer(hash: Hash) | PeerBlocked(transfer: Hash, address: Address)

  /** One entry of a shared_files_list the session announces. */
  datatype Offer = FileOffer(hash: Hash) | UserOffer

  /** Calls the session makes into collaborators whose code is not part of this model. */
  datatype Call =
    | DoPause(hash: Hash)
    | DoResume(hash: Hash)
    | AbortTransfer(hash: Hash, deleteFiles: bool)
    | DisconnectPeers(hash: Hash, count: int)
    | PostAnnounce(offers: seq<Offer>)
    | ServerStart
    | ServerStop

  datatype SessionError = SessionClosing | DuplicateTransfer

  /**
   * add_transfer_params as far as add_transfer looks at them. `announceable` is not a field of
   * add_transfer_params: it is the caller-supplied initial value of the entry's snapshot of
   * !getAnnounce().is_empty().
   */
  datatype AddTransferParams = AddTransferParams(fileHash: Hash, duplicateIsError: bool, announceable: bool)

  /** The session_settings fields the modelled code reads or clamps. */
  datatype Settings = Settings(
    connectionsLimit: int,
    halfOpenLimit: int,
    downloadRateLimit: int,
    uploadRateLimit: int,
    cacheBufferChunkSize: int,
    connectionSpeed: int,
    filePoolSize: int,
    announceTimeout: int,
    maxAnnouncesPerCall: nat,
    serverReconnectTimeout: int,
    allowMultipleConnectionsPerIp: bool,
    maxPeerlistSize: int)

  // ---------------------------------------------------------------------------------
  // The transfer map
  // ---------------------------------------------------------------------------------

  /** std::map iteration order: strictly increasing hashes. */
  ghost predicate HashesSorted(ts: seq<TransferEntry>)
  {
    forall i, j :: 0 <= i < j < |ts| ==> ts[i].hash < ts[j].hash
  }

  ghost predicate HasHash(ts: seq<TransferEntry>, h: Hash)
  {
    exists i :: 0 <= i < |ts| && ts[i].hash == h
  }

  /** find_transfer(hash): the entry with that hash, if any. */
  function FindTransfer(ts: seq<TransferEntry>, h: Hash): (r: Option<TransferEntry>)
    ensures r.Some? <==> HasHash(ts, h)
    ensures r.Some? ==> r.value.hash == h && r.value in ts
  {
    if ts == [] then None
    else if ts[0].hash == h then Some(ts[0])
    else
      var r := FindTransfer(ts[1..], h);
      assert r.Some? ==> r.value in ts;
      assert HasHash(ts, h) && ts[0].hash != h ==> HasHash(ts[1..], h) by {
        if HasHash(ts, h) && ts[0].hash != h {
          var i :| 0 <= i < |ts| && ts[i].hash == h;
          assert ts[1..][i - 1].hash == h;
        }
      }
      r
  }

  /** The queue position add_transfer hands out after looking at the entries of ts in order. */
  function NextQueuePosition(ts: seq<TransferEntry>): int
  {
    if ts == [] then 0
    else
      var q := NextQueuePosition(ts[..|ts| - 1]);
      var pos := ts[|ts| - 1].queuePosition;
      if pos >= q then pos + 1 else q
  }

  /**
   * The new queue position is one more than the largest existing position, or 0 when
   * there is none that is not negative.
   */
  lemma {:induction false} NextQueuePositionIsMaxPlusOne(ts: seq<TransferEntry>)
    ensures NextQueuePosition(ts) >= 0
    ensures forall i :: 0 <= i < |ts| ==> ts[i].queuePosition < NextQueuePosition(ts)
    ensures NextQueuePosition(ts) == 0 || exists i :: 0 <= i < |ts| && NextQueuePosition(ts) == ts[i].queuePosition + 1
  {
    if ts != [] {
      var init := ts[..|ts| - 1];
      NextQueuePositionIsMaxPlusOne(init);
      var q := NextQueuePosition(init);
      forall i | 0 <= i < |ts| ensures ts[i].queuePosition < NextQueuePosition(ts) {
        if i < |ts| - 1 {
          assert ts[i] == init[i];
        }
      }
      if q != 0 && ts[|ts| - 1].queuePosition < q {
        var i :| 0 <= i < |init| && q == init[i].queuePosition + 1;
        assert ts[i] == init[i];
      }
    }
  }

  /** Inserting a new hash into the map, at its place in hash order. */
  function InsertEntry(ts: seq<TransferEntry>, e: TransferEntry): (r: seq<TransferEntry>)
    ensures |r| == |ts| + 1
    ensures e in r && forall x :: x in ts ==> x in r
    ensures forall x :: x in r ==> x == e || x in ts
  {
    if ts == [] || e.hash < ts[0].hash then [e] + ts
    else [ts[0]] + InsertEntry(ts[1..], e)
  }

  lemma {:induction false} InsertEntryKeepsSorted(ts: seq<TransferEntry>, e: TransferEntry)
    requires HashesSorted(ts) && !HasHash(ts, e.hash)
    ensures HashesSorted(InsertEntry(ts, e))
  {
    if ts != [] && e.hash >= ts[0].hash {
      assert ts[0].hash != e.hash;
      var tail := ts[1..];
      InsertEntryKeepsSorted(tail, e);
      var r := InsertEntry(ts, e);
      forall i, j | 0 <= i < j < |r| ensures r[i].hash < r[j].hash {
        if i == 0 {
          assert r[j] in InsertEntry(tail, e);
          assert r[j] == e || r[j] in tail;
        }
      }
    }
  }

  /** m_transfers.erase: the entries without the one at index k. */
  function RemoveAt<T>(s: seq<T>, k: nat): (r: seq<T>)
    requires k < |s|
    ensures |r| == |s| - 1
    ensures forall i :: 0 <= i < k ==> r[i] == s[i]
    ensures forall i :: k <= i < |r| ==> r[i] == s[i + 1]
  {
    s[..k] + s[k + 1..]
  }

  /** The index of the entry with hash h, as std::map::find locates it. */
  method LocateTransfer(ts: seq<TransferEntry>, h: Hash) returns (k: nat)
    ensures k <= |ts|
    ensures k < |ts| ==> ts[k].hash == h
    ensures k == |ts| <==> !HasHash(ts, h)
  {
    k := 0;
    while k < |ts| && ts[k].hash != h
      invariant k <= |ts|
      invariant forall i :: 0 <= i < k ==> ts[i].hash != h
    {
      k := k + 1;
    }
  }

  lemma RemoveKeepsSorted(ts: seq<TransferEntry>, k: nat)
    requires HashesSorted(ts) && k < |ts|
    ensures HashesSorted(RemoveAt(ts, k)) && !HasHash(RemoveAt(ts, k), ts[k].hash)
  {
    var r := RemoveAt(ts, k);
    forall i, j | 0 <= i < j < |r| ensures r[i].hash < r[j].hash {
      if j < k {
      } else if i < k {
        assert r[j] == ts[j + 1];
      } else {
        assert r[i] == ts[i + 1] && r[j] == ts[j + 1];
      }
    }
    forall i | 0 <= i < |r| ensures r[i].hash != ts[k].hash {
      if i >= k {
        assert r[i] == ts[i + 1];
      }
    }
  }

  // ---------------------------------------------------------------------------------
  // The check queue
  // ---------------------------------------------------------------------------------

  ghost predicate QueueDistinct(q: seq<QueuedCheck>)
  {
    forall i, j :: 0 <= i < j < |q| ==> q[i].hash != q[j].hash
  }

  /** A non-empty check queue has exactly one transfer checking its files. */
  ghost predicate OneChecking(q: seq<QueuedCheck>)
  {
    && (forall i, j :: 0 <= i < |q| && 0 <= j < |q| && q[i].checking && q[j].checking ==> i == j)
    && (q != [] ==> exists i :: 0 <= i < |q| && q[i].checking)
  }

  /**
   * The candidate dequeue_check_transfer would start, after looking at the first n
   * elements, with the selection evidently intended: elements other than t, the lowest
   * queue position first, the earliest such element on ties.
   */
  function PickNext(q: seq<QueuedCheck>, t: Hash, n: nat): (k: nat)
    requires 0 < |q| && n <= |q|
    ensures k < |q| && (n > 0 ==> k < n)
  {
    if n == 0 then 0
    else
      var k := PickNext(q, t, n - 1);
      var i := n - 1;
      if q[i].hash != t && (q[k].hash == t || q[k].position > q[i].position) then i else k
  }

  /** The same selection as written at session_impl.cpp:620-626, which does not skip t. */
  function PickNextAsWritten(q: seq<QueuedCheck>, t: Hash, n: nat): (k: nat)
    requires 0 < |q| && n <= |q|
    ensures k < |q| && (n > 0 ==> k < n)
  {
    if n == 0 then 0
    else
      var k := PickNextAsWritten(q, t, n - 1);
      var i := n - 1;
      if q[k].hash == t || q[k].position > q[i].position then i else k
  }

  /** The iterator `done`: the last element of the first n that is t, or the end. */
  function LastIndexOf(q: seq<QueuedCheck>, t: Hash, n: nat): (k: nat)
    requires n <= |q|
    ensures k == |q| || (k < n && q[k].hash == t)
    ensures k == |q| <==> forall i :: 0 <= i < n ==> q[i].hash != t
  {
    if n == 0 then |q|
    else if q[n - 1].hash == t then n - 1
    else LastIndexOf(q, t, n - 1)
  }

  /**
   * When another element is queued, the chosen one is not t and has the lowest queue
   * position of all elements other than t.
   */
  lemma {:induction false} PickNextIsMinimal(q: seq<QueuedCheck>, t: Hash, n: nat)
    requires 0 < |q| && n <= |q|
    ensures (exists i :: 0 <= i < n && q[i].hash != t) ==> q[PickNext(q, t, n)].hash != t
    ensures q[PickNext(q, t, n)].hash != t ==>
      forall i :: 0 <= i < n && q[i].hash != t ==> q[PickNext(q, t, n)].position <= q[i].position
  {
    if n > 0 {
      PickNextIsMinimal(q, t, n - 1);
      var k0 := PickNext(q, t, n - 1);
      if exists i :: 0 <= i < n && q[i].hash != t {
        if q[n - 1].hash == t {
          var i :| 0 <= i < n && q[i].hash != t;
          assert i < n - 1;
        }
      }
      var k := PickNext(q, t, n);
      if q[k].hash != t {
        forall i | 0 <= i < n && q[i].hash != t ensures q[k].position <= q[i].position {
          if i < n - 1 && k == n - 1 {
            assert q[k0].hash == t || q[k0].position > q[n - 1].position;
          }
        }
      }
    }
  }

  /** dequeue_check_transfer(t) on queue q, with the corrected selection. */
  function Dequeued(q: seq<QueuedCheck>, t: Hash): seq<QueuedCheck>
  {
    if q == [] then q
    else
      var next := PickNext(q, t, |q|);
      var done := LastIndexOf(q, t, |q|);
      if done == |q| then q
      else
        var started := if next != done && q[done].checking then q[next := q[next].(checking := true)] else q;
        RemoveAt(started, done)
  }

  /**
   * The loop of dequeue_check_transfer over the check queue: one pass finds the element
   * that is t and the element to start next; then t leaves the queue.
   */
  method DequeueFrom(q: seq<QueuedCheck>, t: Hash) returns (r: seq<QueuedCheck>)
    ensures r == Dequeued(q, t)
  {
    if q == [] {
      return q;
    }
    var next := 0;
    var done := |q|;
    var i := 0;
    while i < |q|
      invariant 0 <= i <= |q|
      invariant next == PickNext(q, t, i)
      invariant done == LastIndexOf(q, t, i)
    {
      if q[i].hash == t {
        done := i;
      }
      if q[i].hash != t && (q[next].hash == t || q[next].position > q[i].position) {
        next := i;
      }
      i := i + 1;
    }
    if done == |q| {
      return q;
    }
    r := q;
    if next != done && q[done].checking {
      r := q[next := q[next].(checking := true)];
    }
    r := RemoveAt(r, done);
  }

  /** dequeue_check_transfer(t) on queue q, as written. */
  function DequeuedAsWritten(q: seq<QueuedCheck>, t: Hash): seq<QueuedCheck>
  {
    if q == [] then q
    else
      var next := PickNextAsWritten(q, t, |q|);
      var done := LastIndexOf(q, t, |q|);
      if done == |q| then q
      else
        var started := if next != done && q[done].checking then q[next := q[next].(checking := true)] else q;
        RemoveAt(started, done)
  }

  /**
   * Found on the code as written: dequeuing the transfer that is checking, when it has the
   * lowest queue position but is not at the head of the queue, selects that transfer
   * itself, so the dequeue starts nothing. Only on_tick's fallback starts the remaining
   * transfer later, after an assertion failure in debug builds.
   */
  lemma DequeueAsWrittenStalls()
    ensures var q := [QueuedCheck(1, 5, false), QueuedCheck(2, 1, true)];
      && QueueDistinct(q) && OneChecking(q)
      && DequeuedAsWritten(q, 2) == [QueuedCheck(1, 5, false)]
      && !OneChecking(DequeuedAsWritten(q, 2))
  {
    var q := [QueuedCheck(1, 5, false), QueuedCheck(2, 1, true)];
    assert PickNextAsWritten(q, 2, 1) == 0;
    assert PickNextAsWritten(q, 2, 2) == 1;
    assert LastIndexOf(q, 2, 2) == 1;
  }

  /** RemoveAt, read back: element i of the result is element i, or i + 1, of s. */
  lemma RemoveAtIndex<T>(s: seq<T>, k: nat, i: nat)
    requires k < |s| && i < |s| - 1
    ensures RemoveAt(s, k)[i] == s[if i < k then i else i + 1]
  {
  }

  /**
   * dequeue_check_transfer removes exactly t and keeps the order and data of every other
   * element; it starts the remaining element with the lowest queue position when, and
   * only when, t was the one checking.
   */
  lemma DequeueShape(q: seq<QueuedCheck>, t: Hash, k: nat)
    requires QueueDistinct(q) && k < |q| && q[k].hash == t
    ensures var r := Dequeued(q, t); var rest := RemoveAt(q, k);
      && (!q[k].checking || rest == [] ==> r == rest)
      && (q[k].checking && rest != [] ==>
            exists j :: 0 <= j < |rest| && r == rest[j := rest[j].(checking := true)]
                     && forall i :: 0 <= i < |rest| ==> rest[j].position <= rest[i].position)
  {
    var done := LastIndexOf(q, t, |q|);
    assert done == k;
    if q[k].checking && |q| > 1 {
      DequeueStarts(q, t, k);
    }
  }

  /** The branch of DequeueShape where t was checking and another transfer remains. */
  lemma DequeueStarts(q: seq<QueuedCheck>, t: Hash, k: nat)
    requires QueueDistinct(q) && k < |q| && q[k].hash == t && q[k].checking && |q| > 1
    ensures var rest := RemoveAt(q, k);
      exists j :: 0 <= j < |rest| && Dequeued(q, t) == rest[j := rest[j].(checking := true)]
               && forall i :: 0 <= i < |rest| ==> rest[j].position <= rest[i].position
  {
    var done := LastIndexOf(q, t, |q|);
    assert done == k;
    var rest := RemoveAt(q, k);
    var next := PickNext(q, t, |q|);
    PickNextIsMinimal(q, t, |q|);
    var other := if k == 0 then 1 else 0;
    assert q[other].hash != t by {
      if other < k { assert q[other].hash != q[k].hash; } else { assert q[k].hash != q[other].hash; }
    }
    assert q[next].hash != t;
    StartThenRemove(q, k, next);
    RestMinimal(q, t, k, next);
    var j := if next < k then next else next - 1;
    assert rest[j] == q[next] by { RemoveAtIndex(q, k, j); }
  }

  /** Starting element `next` and then removing element k is removing k and then starting what next became. */
  lemma StartThenRemove(q: seq<QueuedCheck>, k: nat, next: nat)
    requires k < |q| && next < |q| && next != k
    ensures var rest, j := RemoveAt(q, k), if next < k then next else next - 1;
      j < |rest| && RemoveAt(q[next := q[next].(checking := true)], k) == rest[j := rest[j].(checking := true)]
  {
    var started := q[next := q[next].(checking := true)];
    var rest, j := RemoveAt(q, k), if next < k then next else next - 1;
    var r, want := RemoveAt(started, k), rest[j := rest[j].(checking := true)];
    forall i | 0 <= i < |rest| ensures r[i] == want[i] {
      RemoveAtIndex(started, k, i);
      RemoveAtIndex(q, k, i);
    }
  }

  /** An element below every other element than t stays below everything after t is removed. */
  lemma RestMinimal(q: seq<QueuedCheck>, t: Hash, k: nat, next: nat)
    requires QueueDistinct(q) && k < |q| && q[k].hash == t && next < |q|
    requires forall i :: 0 <= i < |q| && q[i].hash != t ==> q[next].position <= q[i].position
    ensures forall i :: 0 <= i < |RemoveAt(q, k)| ==> q[next].position <= RemoveAt(q, k)[i].position
  {
    forall i | 0 <= i < |RemoveAt(q, k)| ensures q[next].position <= RemoveAt(q, k)[i].position {
      RemoveAtIndex(q, k, i);
      var i' := if i < k then i else i + 1;
      if i' < k { assert q[i'].hash != q[k].hash; } else { assert q[k].hash != q[i'].hash; }
    }
  }

  /**
   * dequeue_check_transfer keeps the hashes distinct and exactly one transfer checking while
   * any is queued; afterwards t is not queued, and nothing changes when it was not.
   */
  lemma DequeueKeepsInvariant(q: seq<QueuedCheck>, t: Hash)
    requires QueueDistinct(q) && OneChecking(q)
    ensures var r := Dequeued(q, t);
      && QueueDistinct(r) && OneChecking(r) && NotQueued(r, t)
      && (NotQueued(q, t) ==> r == q)
  {
    if q != [] && !NotQueued(q, t) {
      var k := LastIndexOf(q, t, |q|);
      DequeueShape(q, t, k);
      RemoveAtKeeps(q, k);
      var rest := RemoveAt(q, k);
      if q[k].checking && rest != [] {
        var j :| 0 <= j < |rest| && Dequeued(q, t) == rest[j := rest[j].(checking := true)];
        StartKeeps(rest, j, t);
      }
    }
  }

  /**
   * Removing element k keeps the hashes distinct and leaves k's hash unqueued; what was
   * checking stays checking, so nothing checks when k did and exactly one does when k did not.
   */
  lemma RemoveAtKeeps(q: seq<QueuedCheck>, k: nat)
    requires QueueDistinct(q) && OneChecking(q) && k < |q|
    ensures var rest := RemoveAt(q, k);
      && QueueDistinct(rest) && NotQueued(rest, q[k].hash)
      && (q[k].checking ==> forall i :: 0 <= i < |rest| ==> !rest[i].checking)
      && (!q[k].checking ==> OneChecking(rest))
  {
    var rest := RemoveAt(q, k);
    forall i | 0 <= i < |rest|
      ensures rest[i].hash != q[k].hash
      ensures rest[i].checking ==> !q[k].checking
      ensures forall j :: 0 <= j < |rest| && j != i ==> rest[i].hash != rest[j].hash
    {
      RemoveAtIndex(q, k, i);
      var i' := if i < k then i else i + 1;
      assert i' != k;
      if i' < k { assert q[i'].hash != q[k].hash; } else { assert q[k].hash != q[i'].hash; }
      forall j | 0 <= j < |rest| && j != i ensures rest[i].hash != rest[j].hash {
        RemoveAtIndex(q, k, j);
        var j' := if j < k then j else j + 1;
        if i' < j' { assert q[i'].hash != q[j'].hash; } else { assert q[j'].hash != q[i'].hash; }
      }
    }
    forall i, j | 0 <= i < |rest| && 0 <= j < |rest| && rest[i].checking && rest[j].checking ensures i == j {
      RemoveAtIndex(q, k, i);
      RemoveAtIndex(q, k, j);
    }
    if !q[k].checking {
      var c :| 0 <= c < |q| && q[c].checking;
      var c' := if c < k then c else c - 1;
      RemoveAtIndex(q, k, c');
    }
  }

  /** Starting one element of a queue where nothing checks leaves exactly that one checking. */
  lemma StartKeeps(rest: seq<QueuedCheck>, j: nat, t: Hash)
    requires QueueDistinct(rest) && NotQueued(rest, t) && j < |rest|
    requires forall i :: 0 <= i < |rest| ==> !rest[i].checking
    ensures var r := rest[j := rest[j].(checking := true)];
      QueueDistinct(r) && OneChecking(r) && NotQueued(r, t)
  {
    var r := rest[j := rest[j].(checking := true)];
    assert r[j].checking;
  }

  /** No element of q is t: the transfer is not queued. */
  ghost predicate NotQueued(q: seq<QueuedCheck>, t: Hash)
  {
    forall i :: 0 <= i < |q| ==> q[i].hash != t
  }

  /** queue_check_transfer keeps exactly one transfer checking and the hashes distinct. */
  lemma QueueCheckCorrect(q: seq<QueuedCheck>, t: Hash, position: int)
    requires QueueDistinct(q) && OneChecking(q) && NotQueued(q, t)
    ensures var r := q + [QueuedCheck(t, position, q == [])];
      QueueDistinct(r) && OneChecking(r) && (r[|q|].checking <==> q == [])
  {
    var r := q + [QueuedCheck(t, position, q == [])];
    if q != [] {
      var c :| 0 <= c < |q| && q[c].checking;
      assert r[c].checking;
    }
  }

  // ---------------------------------------------------------------------------------
  // Announce selection
  // ---------------------------------------------------------------------------------

  /**
   * The hashes announce offers, in map order, having already offered `count` entries:
   * unannounced transfers with a non-empty announce entry, stopping once the packet holds
   * max entries.
   */
  function Selection(ts: seq<TransferEntry>, count: nat, max: nat): seq<Hash>
    decreases |ts|
  {
    if ts == [] || count >= max then []
    else if !ts[0].announced && ts[0].announceable then [ts[0].hash] + Selection(ts[1..], count + 1, max)
    else Selection(ts[1..], count, max)
  }

  /** The map after announce: the selected transfers are marked announced. */
  function MarkAnnounced(ts: seq<TransferEntry>, sel: seq<Hash>): (r: seq<TransferEntry>)
    ensures |r| == |ts|
  {
    seq(|ts|, i requires 0 <= i < |ts| => if ts[i].hash in sel then ts[i].(announced := true) else ts[i])
  }

  /** Eligible for announcing: not announced yet and has something to announce. */
  ghost predicate Eligible(e: TransferEntry)
  {
    !e.announced && e.announceable
  }

  /**
   * The selection never exceeds the room left in the packet, contains only eligible
   * transfers, in map order, and misses an eligible transfer only when the packet is full.
   */
  lemma {:induction false} SelectionCorrect(ts: seq<TransferEntry>, count: nat, max: nat)
    requires HashesSorted(ts)
    ensures |Selection(ts, count, max)| <= if count <= max then max - count else 0
    ensures forall h :: h in Selection(ts, count, max) ==> exists i :: 0 <= i < |ts| && ts[i].hash == h && Eligible(ts[i])
    ensures forall i, j :: 0 <= i < j < |Selection(ts, count, max)| ==> Selection(ts, count, max)[i] < Selection(ts, count, max)[j]
    ensures count + |Selection(ts, count, max)| < max ==>
      forall i :: 0 <= i < |ts| && Eligible(ts[i]) ==> ts[i].hash in Selection(ts, count, max)
    decreases |ts|
  {
    if ts != [] && count < max {
      var tail := ts[1..];
      assert HashesSorted(tail);
      var sel := Selection(ts, count, max);
      if Eligible(ts[0]) {
        SelectionCorrect(tail, count + 1, max);
        var rest := Selection(tail, count + 1, max);
        assert sel == [ts[0].hash] + rest;
        forall h | h in sel ensures exists i :: 0 <= i < |ts| && ts[i].hash == h && Eligible(ts[i]) {
          if h != ts[0].hash {
            assert h in rest;
            var i :| 0 <= i < |tail| && tail[i].hash == h && Eligible(tail[i]);
            assert ts[i + 1] == tail[i];
          }
        }
        forall i, j | 0 <= i < j < |sel| ensures sel[i] < sel[j] {
          if i == 0 {
            assert sel[j] in rest;
            var k :| 0 <= k < |tail| && tail[k].hash == sel[j] && Eligible(tail[k]);
            assert ts[k + 1] == tail[k];
          } else {
            assert sel[i] == rest[i - 1] && sel[j] == rest[j - 1];
          }
        }
        if count + |sel| < max {
          forall i | 0 <= i < |ts| && Eligible(ts[i]) ensures ts[i].hash in sel {
            if i > 0 { assert tail[i - 1] == ts[i]; }
          }
        }
      } else {
        SelectionCorrect(tail, count, max);
        forall h | h in sel ensures exists i :: 0 <= i < |ts| && ts[i].hash == h && Eligible(ts[i]) {
          var i :| 0 <= i < |tail| && tail[i].hash == h && Eligible(tail[i]);
          assert ts[i + 1] == tail[i];
        }
        if count + |sel| < max {
          forall i | 0 <= i < |ts| && Eligible(ts[i]) ensures ts[i].hash in sel {
            if i > 0 { assert tail[i - 1] == ts[i]; }
          }
        }
      }
    }
  }

  /** The offers one selection makes. */
  function FileOffers(sel: seq<Hash>): (r: seq<Offer>)
    ensures |r| == |sel| && forall i :: 0 <= i < |sel| ==> r[i] == FileOffer(sel[i])
  {
    seq(|sel|, i requires 0 <= i < |sel| => FileOffer(sel[i]))
  }

  // ---------------------------------------------------------------------------------
  // Timers
  // ---------------------------------------------------------------------------------

  /** A millisecond accumulator after one tick: whether it fired and the new accumulated time. */
  datatype Timer = Timer(fired: bool, elapsed: int)

  /**
   * One tick of the announce or reconnect timer: disabled by a timeout of -1; otherwise
   * it accumulates the tick and fires, resetting to 0, once timeout seconds are reached.
   */
  function Tick(timeoutSeconds: int, elapsed: int, tickMs: int): (r: Timer)
    ensures timeoutSeconds == -1 ==> r == Timer(false, elapsed)
    ensures timeoutSeconds != -1 ==> (r.fired <==> elapsed + tickMs >= timeoutSeconds * 1000)
    ensures r.fired ==> r.elapsed == 0
    ensures timeoutSeconds != -1 && !r.fired ==> r.elapsed == elapsed + tickMs < timeoutSeconds * 1000
  {
    if timeoutSeconds == -1 then Timer(false, elapsed)
    else if elapsed + tickMs < timeoutSeconds * 1000 then Timer(false, elapsed + tickMs)
    else Timer(true, 0)
  }

  /** The accumulated time after n ticks from 0. */
  function Elapsed(timeoutSeconds: int, tickMs: int, n: nat): int
  {
    if n == 0 then 0 else Tick(timeoutSeconds, Elapsed(timeoutSeconds, tickMs, n - 1), tickMs).elapsed
  }

  lemma MulMonotone(a: int, b: int, c: int)
    requires a <= b && c >= 0
    ensures a * c <= b * c
  {
  }

  /** Before the timeout is reached the accumulator holds the ticks so far. */
  lemma {:induction false} ElapsedBeforeFiring(timeoutSeconds: int, tickMs: int, n: nat)
    requires timeoutSeconds > 0 && tickMs > 0 && n * tickMs < timeoutSeconds * 1000
    ensures Elapsed(timeoutSeconds, tickMs, n) == n * tickMs
  {
    if n > 0 {
      assert (n - 1) * tickMs == n * tickMs - tickMs;
      ElapsedBeforeFiring(timeoutSeconds, tickMs, n - 1);
    }
  }

  /**
   * With a positive tick and a positive timeout, the timer first fires on tick number
   * ceil(timeout * 1000 / tick) and stays silent on every tick before it.
   */
  lemma TimerPeriod(timeoutSeconds: int, tickMs: int, n: nat)
    requires timeoutSeconds > 0 && tickMs > 0
    requires n < DivCeil(timeoutSeconds * 1000, tickMs)
    ensures Elapsed(timeoutSeconds, tickMs, n) == n * tickMs
    ensures Tick(timeoutSeconds, Elapsed(timeoutSeconds, tickMs, n), tickMs).fired
        <==> n + 1 == DivCeil(timeoutSeconds * 1000, tickMs)
  {
    var period := timeoutSeconds * 1000;
    DivCeilCovers(period, tickMs);
    var k := DivCeil(period, tickMs);
    assert (k - 1) * tickMs == k * tickMs - tickMs;
    MulMonotone(n, k - 1, tickMs);
    ElapsedBeforeFiring(timeoutSeconds, tickMs, n);
    assert n * tickMs + tickMs == (n + 1) * tickMs;
    if n + 1 < k {
      MulMonotone(n + 1, k - 1, tickMs);
    }
  }

  // ---------------------------------------------------------------------------------
  // update_connections_limit
  // ---------------------------------------------------------------------------------

  /** The number of entries above the last average that are above `average` (num_above). */
  function CountAbove(peers: seq<nat>, last: int, average: int): nat
  {
    if peers == [] then 0
    else
      var num := peers[|peers| - 1];
      CountAbove(peers[..|peers| - 1], last, average) + (if num > last && num > average then 1 else 0)
  }

  /** The slots gained from entries above the last average but below `average`. */
  function Gain(peers: seq<nat>, last: int, average: int): nat
  {
    if peers == [] then 0
    else
      var num := peers[|peers| - 1];
      Gain(peers[..|peers| - 1], last, average) + (if num > last && num < average then average - num else 0)
  }

  /** The average and the undistributed extra slots. */
  datatype Share = Share(average: int, extra: int)

  /** The (at most four) rounds that spread the extra slots over the transfers above average. */
  function Rebalance(peers: seq<nat>, last: int, average: int, extra: int, round: nat): (r: Share)
    requires extra >= 0
    ensures r.average >= average && r.extra >= 0
    decreases 4 - round
  {
    if round >= 4 then Share(average, extra)
    else
      var above := CountAbove(peers, last, average);
      var e := extra + Gain(peers, last, average);
      var numAbove := if above == 0 then 1 else above;
      var next := average + e / numAbove;
      if e == 0 then Share(next, e)
      else Rebalance(peers, average, next, e % numAbove, round + 1)
  }

  /** The disconnect_peers requests of the final loop: None where the transfer is not asked at all. */
  function Distribute(peers: seq<nat>, average: int, extra: int, remaining: int): (r: seq<Option<int>>)
    ensures |r| == |peers|
    decreases |peers|
  {
    if peers == [] then []
    else if peers[0] <= average then [None] + Distribute(peers[1..], average, extra, remaining)
    else
      var myAverage := if extra > 0 then average + 1 else average;
      var d := if remaining < peers[0] - myAverage then remaining else peers[0] - myAverage;
      [Some(d)] + Distribute(peers[1..], average, if extra > 0 then extra - 1 else extra, remaining - d)
  }

  /** One more transfer of the final loop: its request moves from the rest of the requests to the ones made. */
  lemma DistributeAdvance(peers: seq<nat>, i: nat, average: int, extra: int, remaining: int,
                          asks: seq<Option<int>>, all: seq<Option<int>>)
    requires i < |peers| && asks + Distribute(peers[i..], average, extra, remaining) == all
    ensures peers[i] <= average ==> (asks + [None]) + Distribute(peers[i + 1..], average, extra, remaining) == all
    ensures peers[i] > average ==>
      var myAverage := if extra > 0 then average + 1 else average;
      var d := if remaining < peers[i] - myAverage then remaining else peers[i] - myAverage;
      (asks + [Some(d)]) + Distribute(peers[i + 1..], average, if extra > 0 then extra - 1 else extra, remaining - d) == all
  {
    assert peers[i..][1..] == peers[i + 1..];
    var rest := Distribute(peers[i..], average, extra, remaining);
    assert asks + rest == (asks + [rest[0]]) + rest[1..];
  }

  /** The sum of the requested disconnects. */
  function Requested(asks: seq<Option<int>>): int
  {
    if asks == [] then 0 else (if asks[0].Some? then asks[0].value else 0) + Requested(asks[1..])
  }

  /**
   * Only transfers above the average are asked, none below zero or below the average, and
   * the requests add up to at most the number of connections to shed.
   */
  lemma {:induction false} DistributeBounds(peers: seq<nat>, average: int, extra: int, remaining: int)
    requires remaining >= 0
    ensures |Distribute(peers, average, extra, remaining)| == |peers|
    ensures forall i :: 0 <= i < |peers| ==> (Distribute(peers, average, extra, remaining)[i].None? <==> peers[i] <= average)
    ensures forall i :: 0 <= i < |peers| && Distribute(peers, average, extra, remaining)[i].Some? ==>
      0 <= Distribute(peers, average, extra, remaining)[i].value <= peers[i] - average
    ensures 0 <= Requested(Distribute(peers, average, extra, remaining)) <= remaining
    decreases |peers|
  {
    if peers != [] {
      var r := Distribute(peers, average, extra, remaining);
      if peers[0] <= average {
        DistributeBounds(peers[1..], average, extra, remaining);
        assert r[1..] == Distribute(peers[1..], average, extra, remaining);
      } else {
        var myAverage := if extra > 0 then average + 1 else average;
        var d := if remaining < peers[0] - myAverage then remaining else peers[0] - myAverage;
        DistributeBounds(peers[1..], average, if extra > 0 then extra - 1 else extra, remaining - d);
        assert r[1..] == Distribute(peers[1..], average, if extra > 0 then extra - 1 else extra, remaining - d);
      }
    }
  }

  /** num_peers of each transfer, in map order. */
  function PeerCounts(ts: seq<TransferEntry>): (r: seq<nat>)
    ensures |r| == |ts| && forall i :: 0 <= i < |ts| ==> r[i] == ts[i].numPeers
  {
    seq(|ts|, i requires 0 <= i < |ts| => ts[i].numPeers)
  }

  /** The disconnect_peers calls for the requests, one per asked transfer, in map order. */
  function DisconnectCalls(ts: seq<TransferEntry>, asks: seq<Option<int>>): seq<Call>
    requires |asks| == |ts|
  {
    if ts == [] then []
    else (if asks[0].Some? then [DisconnectPeers(ts[0].hash, asks[0].value)] else []) + DisconnectCalls(ts[1..], asks[1..])
  }

  /**
   * A disconnect_peers call that asks a transfer with more than `average` peers for at
   * most its peers above `average`.
   */
  ghost predicate FairCall(ts: seq<TransferEntry>, c: Call, average: int)
  {
    c.DisconnectPeers? &&
    exists i :: 0 <= i < |ts| && ts[i].hash == c.hash && ts[i].numPeers > average && 0 <= c.count <= ts[i].numPeers - average
  }

  /** The sum of the counts of a list of calls. */
  function CallTotal(cs: seq<Call>): int
  {
    if cs == [] then 0 else (if cs[0].DisconnectPeers? then cs[0].count else 0) + CallTotal(cs[1..])
  }

  /** What update_connections_limit asks of the transfers, given the connection count and the limit. */
  function LimitCalls(ts: seq<TransferEntry>, numConnections: int, limit: int): seq<Call>
    requires ts != [] && limit > 0
  {
    var share := Rebalance(PeerCounts(ts), 0, limit / |ts|, limit % |ts|, 0);
    DisconnectCalls(ts, Distribute(PeerCounts(ts), share.average, share.extra, numConnections - limit))
  }

  /**
   * Over the limit, update_connections_limit asks only transfers with more peers than
   * their even share limit / n, never for more than they have above it, and for at most
   * num_connections - limit disconnects in total.
   */
  lemma LimitCallsBounds(ts: seq<TransferEntry>, numConnections: int, limit: int)
    requires ts != [] && limit > 0 && numConnections > limit
    ensures forall c :: c in LimitCalls(ts, numConnections, limit) ==> FairCall(ts, c, limit / |ts|)
    ensures CallTotal(LimitCalls(ts, numConnections, limit)) <= numConnections - limit
  {
    var peers := PeerCounts(ts);
    var share := Rebalance(peers, 0, limit / |ts|, limit % |ts|, 0);
    var asks := Distribute(peers, share.average, share.extra, numConnections - limit);
    DistributeBounds(peers, share.average, share.extra, numConnections - limit);
    DisconnectCallsCorrect(ts, asks, share.average);
  }

  lemma {:induction false} DisconnectCallsCorrect(ts: seq<TransferEntry>, asks: seq<Option<int>>, average: int)
    requires |asks| == |ts|
    requires forall i :: 0 <= i < |ts| ==> (asks[i].None? <==> ts[i].numPeers <= average)
    requires forall i :: 0 <= i < |ts| && asks[i].Some? ==> 0 <= asks[i].value <= ts[i].numPeers - average
    ensures forall c :: c in DisconnectCalls(ts, asks) ==> FairCall(ts, c, average)
    ensures CallTotal(DisconnectCalls(ts, asks)) == Requested(asks)
  {
    if ts != [] {
      DisconnectCallsCorrect(ts[1..], asks[1..], average);
      var head := if asks[0].Some? then [DisconnectPeers(ts[0].hash, asks[0].value)] else [];
      var rest := DisconnectCalls(ts[1..], asks[1..]);
      assert DisconnectCalls(ts, asks) == head + rest;
      CallTotalAppend(head, rest);
      forall c | c in DisconnectCalls(ts, asks) ensures FairCall(ts, c, average) {
        if c in rest {
          var i :| 0 <= i < |ts[1..]| && ts[1..][i].hash == c.hash
            && ts[1..][i].numPeers > average && 0 <= c.count <= ts[1..][i].numPeers - average;
          assert ts[i + 1] == ts[1..][i];
        }
      }
    }
  }

  lemma {:induction false} CallTotalAppend(a: seq<Call>, b: seq<Call>)
    ensures CallTotal(a + b) == CallTotal(a) + CallTotal(b)
  {
    if a == [] {
      assert a + b == b;
    } else {
      assert (a + b)[0] == a[0] && (a + b)[1..] == a[1..] + b;
      CallTotalAppend(a[1..], b);
    }
  }

  // ---------------------------------------------------------------------------------
  // Settings
  // ---------------------------------------------------------------------------------

  /** update_rate_settings: a non-positive half-open limit means unlimited; negative rates mean 0. */
  function RateClamped(s: Settings): (r: Settings)
    ensures r.halfOpenLimit > 0 && r.downloadRateLimit >= 0 && r.uploadRateLimit >= 0
    ensures r.halfOpenLimit == (if s.halfOpenLimit <= 0 then IntMax else s.halfOpenLimit)
    ensures r.downloadRateLimit == (if s.downloadRateLimit < 0 then 0 else s.downloadRateLimit)
    ensures r.uploadRateLimit == (if s.uploadRateLimit < 0 then 0 else s.uploadRateLimit)
    ensures r.(halfOpenLimit := s.halfOpenLimit, downloadRateLimit := s.downloadRateLimit, uploadRateLimit := s.uploadRateLimit) == s
  {
    s.(halfOpenLimit := if s.halfOpenLimit <= 0 then IntMax else s.halfOpenLimit,
       downloadRateLimit := if s.downloadRateLimit < 0 then 0 else s.downloadRateLimit,
       uploadRateLimit := if s.uploadRateLimit < 0 then 0 else s.uploadRateLimit)
  }

  /** update_connections_limit's clamp: a non-positive limit means INT_MAX. */
  function LimitClamped(limit: int): (r: int)
    ensures r > 0 && (limit > 0 ==> r == limit) && (limit <= 0 ==> r == IntMax)
  {
    if limit <= 0 then IntMax else limit
  }

  /** The settings set_settings stores for s; the connections limit is clamped only when it changed. */
  function Sanitized(s: Settings, limitChanged: bool): (r: Settings)
    ensures r.cacheBufferChunkSize >= 1 && r.connectionSpeed >= 0
    ensures r.halfOpenLimit > 0 && r.downloadRateLimit >= 0 && r.uploadRateLimit >= 0
    ensures r.cacheBufferChunkSize == (if s.cacheBufferChunkSize <= 0 then 1 else s.cacheBufferChunkSize)
    ensures r.halfOpenLimit == (if s.halfOpenLimit <= 0 then IntMax else s.halfOpenLimit)
    ensures r.downloadRateLimit == (if s.downloadRateLimit < 0 then 0 else s.downloadRateLimit)
    ensures r.uploadRateLimit == (if s.uploadRateLimit < 0 then 0 else s.uploadRateLimit)
    ensures r.connectionsLimit == (if limitChanged && s.connectionsLimit <= 0 then IntMax else s.connectionsLimit)
    ensures r.connectionSpeed == (if s.connectionSpeed < 0 then 200 else s.connectionSpeed)
    ensures r.(connectionsLimit := s.connectionsLimit, halfOpenLimit := s.halfOpenLimit,
               downloadRateLimit := s.downloadRateLimit, uploadRateLimit := s.uploadRateLimit,
               cacheBufferChunkSize := s.cacheBufferChunkSize, connectionSpeed := s.connectionSpeed) == s
  {
    var chunk := s.(cacheBufferChunkSize := if s.cacheBufferChunkSize <= 0 then 1 else s.cacheBufferChunkSize);
    var rate := RateClamped(chunk);
    var limited := if limitChanged then rate.(connectionsLimit := LimitClamped(rate.connectionsLimit)) else rate;
    limited.(connectionSpeed := if limited.connectionSpeed < 0 then 200 else limited.connectionSpeed)
  }

  // ---------------------------------------------------------------------------------
  // Send buffers
  // ---------------------------------------------------------------------------------

  /** What allocate_buffer returns besides the pointer: the number of buffers and the capacity. */
  datatype Allocation = Allocation(numBuffers: int, capacity: int)

  /**
   * allocate_buffer(size): whole send buffers, rounded up, in C++ integer arithmetic. For a
   * non-negative size the capacity is the least multiple of send_buffer_size that holds size bytes.
   */
  function AllocateBuffer(size: int): (r: Allocation)
    ensures r.capacity == r.numBuffers * SendBufferSize
    ensures size >= 0 ==> r.numBuffers >= 0 && size <= r.capacity < size + SendBufferSize
    ensures size >= 0 ==> r.capacity % SendBufferSize == 0
  {
    var n := DivCeil(size, SendBufferSize);
    if size >= 0 then
      DivCeilCovers(size, SendBufferSize);
      Allocation(n, n * SendBufferSize)
    else
      Allocation(n, n * SendBufferSize)
  }

  // ---------------------------------------------------------------------------------
  // The session object
  // ---------------------------------------------------------------------------------

  class Session {
    var aborted: bool                      // m_abort
    var paused: bool                       // m_paused
    var transfers: seq<TransferEntry>      // m_transfers, in key order
    var checkQueue: seq<QueuedCheck>       // m_queued_for_checking
    var connections: set<Conn>             // m_connections
    var ipFilter: set<Address>             // the addresses m_ip_filter blocks
    var alerts: seq<Alert>                 // m_alerts
    var calls: seq<Call>
    var settings: Settings                 // m_settings
    var halfOpenQueueLimit: int            // m_half_open.limit()
    var downloadThrottle: int              // m_download_channel.throttle()
    var uploadThrottle: int                // m_upload_channel.throttle()
    var lastAnnounceDuration: int          // m_last_announce_duration
    var lastConnectDuration: int           // m_last_connect_duration
    var userAnnounced: bool                // m_user_announced

    ghost predicate Valid()
      reads this
    {
      HashesSorted(transfers) && QueueDistinct(checkQueue) && OneChecking(checkQueue)
    }

    constructor(s: Settings)
      ensures Valid() && settings == s
      ensures !aborted && !paused && transfers == [] && checkQueue == [] && connections == {}
      ensures ipFilter == {} && alerts == [] && calls == [] && !userAnnounced
      ensures lastAnnounceDuration == 0 && lastConnectDuration == 0
    {
      aborted, paused := false, false;
      transfers, checkQueue, connections := [], [], {};
      ipFilter, alerts, calls := {}, [], [];
      settings := s;
      halfOpenQueueLimit, downloadThrottle, uploadThrottle := 0, 0, 0;
      lastAnnounceDuration, lastConnectDuration := 0, 0;
      userAnnounced := false;
    }

    /** add_transfer: the handle returned (by hash) and the error code set, if any. */
    method AddTransfer(p: AddTransferParams) returns (handle: Option<Hash>, ec: Option<SessionError>)
      requires Valid()
      modifies this`transfers, this`alerts
      ensures Valid()
      ensures old(aborted) ==>
        handle == None && ec == Some(SessionClosing) && transfers == old(transfers) && alerts == old(alerts)
      ensures !old(aborted) && HasHash(old(transfers), p.fileHash) ==>
        && transfers == old(transfers) && alerts == old(alerts)
        && (if p.duplicateIsError then handle == None && ec == Some(DuplicateTransfer)
            else handle == Some(p.fileHash) && ec == None)
      ensures !old(aborted) && !HasHash(old(transfers), p.fileHash) ==>
        && handle == Some(p.fileHash) && ec == None
        && transfers == InsertEntry(old(transfers), TransferEntry(p.fileHash, NextQueuePosition(old(transfers)), 0, false, p.announceable))
        && alerts == old(alerts) + [AddedTransfer(p.fileHash)]
    {
      if aborted {
        return None, Some(SessionClosing);
      }
      var existing := FindTransfer(transfers, p.fileHash);
      if existing.Some? {
        if !p.duplicateIsError {
          return Some(p.fileHash), None;
        }
        return None, Some(DuplicateTransfer);
      }
      var queuePos := 0;
      var i := 0;
      while i < |transfers|
        invariant 0 <= i <= |transfers|
        invariant queuePos == NextQueuePosition(transfers[..i])
      {
        assert transfers[..i + 1][..i] == transfers[..i];
        var pos := transfers[i].queuePosition;
        if pos >= queuePos {
          queuePos := pos + 1;
        }
        i := i + 1;
      }
      assert transfers[..i] == transfers;
      var e := TransferEntry(p.fileHash, queuePos, 0, false, p.announceable);
      InsertEntryKeepsSorted(transfers, e);
      transfers := InsertEntry(transfers, e);
      alerts := alerts + [AddedTransfer(p.fileHash)];
      handle, ec := Some(p.fileHash), None;
    }

    /** remove_transfer: an expired handle is None. */
    method RemoveTransfer(h: Option<Hash>, deleteFiles: bool)
      requires Valid()
      modifies this`transfers, this`alerts, this`calls
      ensures Valid()
      ensures h.None? || !HasHash(old(transfers), h.value) ==>
        transfers == old(transfers) && alerts == old(alerts) && calls == old(calls)
      ensures h.Some? && HasHash(old(transfers), h.value) ==>
        && !HasHash(transfers, h.value)
        && (exists k :: 0 <= k < |old(transfers)| && old(transfers)[k].hash == h.value && transfers == RemoveAt(old(transfers), k))
        && alerts == old(alerts) + [DeletedTransfer(h.value)]
        && calls == old(calls) + [AbortTransfer(h.value, deleteFiles)]
    {
      if h.None? {
        return;
      }
      var k := LocateTransfer(transfers, h.value);
      if k < |transfers| {
        calls := calls + [AbortTransfer(h.value, deleteFiles)];
        RemoveKeepsSorted(transfers, k);
        transfers := RemoveAt(transfers, k);
        alerts := alerts + [DeletedTransfer(h.value)];
      }
    }

    /** queue_check_transfer(t), t given by its hash and queue position. */
    method QueueCheckTransfer(t: Hash, position: int)
      requires Valid() && NotQueued(checkQueue, t)
      modifies this`checkQueue
      ensures Valid()
      ensures aborted ==> checkQueue == old(checkQueue)
      ensures !aborted ==> checkQueue == old(checkQueue) + [QueuedCheck(t, position, old(checkQueue) == [])]
    {
      if aborted {
        return;
      }
      QueueCheckCorrect(checkQueue, t, position);
      checkQueue := checkQueue + [QueuedCheck(t, position, checkQueue == [])];
    }

    /** dequeue_check_transfer(t), with the corrected selection of the next transfer. */
    method DequeueCheckTransfer(t: Hash)
      requires Valid()
      modifies this`checkQueue
      ensures Valid()
      ensures checkQueue == Dequeued(old(checkQueue), t)
    {
      DequeueKeepsInvariant(checkQueue, t);
      checkQueue := DequeueFrom(checkQueue, t);
    }

    /** close_connection: the connection leaves the session-wide registry. */
    method CloseConnection(c: Conn)
      modifies this`connections
      ensures connections == old(connections) - {c}
    {
      if c in connections {
        connections := connections - {c};
      }
    }

    /** pause: does nothing when already paused; otherwise pauses every transfer in map order. */
    method Pause()
      modifies this`paused, this`calls
      ensures paused
      ensures old(paused) ==> calls == old(calls)
      ensures !old(paused) ==> calls == old(calls) + PauseCalls(transfers)
    {
      if paused {
        return;
      }
      paused := true;
      var i := 0;
      while i < |transfers|
        invariant 0 <= i <= |transfers|
        invariant paused && calls == old(calls) + PauseCalls(transfers[..i])
      {
        PauseCallsStep(transfers, i);
        calls := calls + [DoPause(transfers[i].hash)];
        i := i + 1;
      }
      assert transfers[..i] == transfers;
    }

    /** resume: does nothing when not paused; otherwise resumes every transfer in map order. */
    method Resume()
      modifies this`paused, this`calls
      ensures !paused
      ensures !old(paused) ==> calls == old(calls)
      ensures old(paused) ==> calls == old(calls) + ResumeCalls(transfers)
    {
      if !paused {
        return;
      }
      paused := false;
      var i := 0;
      while i < |transfers|
        invariant 0 <= i <= |transfers|
        invariant !paused && calls == old(calls) + ResumeCalls(transfers[..i])
      {
        ResumeCallsStep(transfers, i);
        calls := calls + [DoResume(transfers[i].hash)];
        i := i + 1;
      }
      assert transfers[..i] == transfers;
    }

    /** announce(tick_interval_ms): the timer, the selection of offers and the user announce. */
    method Announce(tickMs: int)
      requires Valid()
      modifies this`lastAnnounceDuration, this`transfers, this`calls, this`userAnnounced
      ensures Valid()
      ensures var timer := Tick(settings.announceTimeout, old(lastAnnounceDuration), tickMs);
        && lastAnnounceDuration == timer.elapsed
        && (!timer.fired ==> transfers == old(transfers) && calls == old(calls) && userAnnounced == old(userAnnounced))
        && (timer.fired ==>
              var sel := Selection(old(transfers), 0, settings.maxAnnouncesPerCall);
              && transfers == MarkAnnounced(old(transfers), sel)
              && (sel != [] ==> calls == old(calls) + [PostAnnounce(FileOffers(sel))] && userAnnounced == old(userAnnounced))
              && (sel == [] && !old(userAnnounced) ==> calls == old(calls) + [PostAnnounce([UserOffer])] && userAnnounced)
              && (sel == [] && old(userAnnounced) ==> calls == old(calls) && userAnnounced))
    {
      if settings.announceTimeout == -1 {
        return;
      }
      lastAnnounceDuration := lastAnnounceDuration + tickMs;
      if lastAnnounceDuration < settings.announceTimeout * 1000 {
        return;
      }
      lastAnnounceDuration := 0;
      var sel, marked := SelectAndMark(transfers, settings.maxAnnouncesPerCall);
      transfers := marked;
      if |sel| > 0 {
        calls := calls + [PostAnnounce(FileOffers(sel))];
      }
      if |sel| == 0 && !userAnnounced {
        calls := calls + [PostAnnounce([UserOffer])];
        userAnnounced := true;
      }
    }

    /** reconnect(tick_interval_ms), given whether the server connection is offline. */
    method Reconnect(tickMs: int, offline: bool)
      modifies this`lastConnectDuration, this`calls
      ensures settings.serverReconnectTimeout == -1 ==> lastConnectDuration == old(lastConnectDuration) && calls == old(calls)
      ensures settings.serverReconnectTimeout != -1 && !offline ==> lastConnectDuration == 0 && calls == old(calls)
      ensures settings.serverReconnectTimeout != -1 && offline ==>
        var timer := Tick(settings.serverReconnectTimeout, old(lastConnectDuration), tickMs);
        lastConnectDuration == timer.elapsed && calls == old(calls) + (if timer.fired then [ServerStart] else [])
    {
      if settings.serverReconnectTimeout == -1 {
        return;
      }
      if !offline {
        lastConnectDuration := 0;
        return;
      }
      lastConnectDuration := lastConnectDuration + tickMs;
      if lastConnectDuration < settings.serverReconnectTimeout * 1000 {
        return;
      }
      lastConnectDuration := 0;
      calls := calls + [ServerStart];
    }

    /** server_conn_stop: the server connection stops and everything is to be announced again. */
    method ServerConnStop()
      requires Valid()
      modifies this`calls, this`transfers, this`userAnnounced
      ensures Valid()
      ensures calls == old(calls) + [ServerStop] && !userAnnounced
      ensures transfers == Unannounced(old(transfers))
    {
      calls := calls + [ServerStop];
      var i := 0;
      while i < |transfers|
        invariant 0 <= i <= |transfers| && |transfers| == |old(transfers)|
        invariant forall j :: 0 <= j < i ==> transfers[j] == old(transfers)[j].(announced := false)
        invariant forall j :: i <= j < |transfers| ==> transfers[j] == old(transfers)[j]
        invariant calls == old(calls) + [ServerStop]
      {
        transfers := transfers[i := transfers[i].(announced := false)];
        i := i + 1;
      }
      userAnnounced := false;
      assert transfers == Unannounced(old(transfers));
      UnannouncedKeepsSorted(old(transfers));
    }

    /** update_rate_settings. */
    method UpdateRateSettings()
      modifies this`settings, this`halfOpenQueueLimit, this`downloadThrottle, this`uploadThrottle
      ensures settings == RateClamped(old(settings))
      ensures halfOpenQueueLimit == settings.halfOpenLimit
      ensures downloadThrottle == settings.downloadRateLimit && uploadThrottle == settings.uploadRateLimit
    {
      if settings.halfOpenLimit <= 0 {
        settings := settings.(halfOpenLimit := IntMax);
      }
      halfOpenQueueLimit := settings.halfOpenLimit;
      if settings.downloadRateLimit < 0 {
        settings := settings.(downloadRateLimit := 0);
      }
      downloadThrottle := settings.downloadRateLimit;
      if settings.uploadRateLimit < 0 {
        settings := settings.(uploadRateLimit := 0);
      }
      uploadThrottle := settings.uploadRateLimit;
    }

    /** update_connections_limit. */
    method UpdateConnectionsLimit()
      modifies this`settings, this`calls
      ensures settings == old(settings).(connectionsLimit := LimitClamped(old(settings).connectionsLimit))
      ensures |connections| > settings.connectionsLimit && transfers != [] ==>
        calls == old(calls) + LimitCalls(transfers, |connections|, settings.connectionsLimit)
      ensures !(|connections| > settings.connectionsLimit && transfers != []) ==> calls == old(calls)
    {
      if settings.connectionsLimit <= 0 {
        settings := settings.(connectionsLimit := IntMax);
      }
      if |connections| > settings.connectionsLimit && transfers != [] {
        var cs := LimitLoop(transfers, |connections|, settings.connectionsLimit);
        calls := calls + cs;
      }
    }

    /** set_settings, for settings whose file pool size is positive. */
    method SetSettings(s: Settings)
      requires s.filePoolSize > 0
      modifies this`settings, this`calls, this`halfOpenQueueLimit, this`downloadThrottle, this`uploadThrottle
      ensures settings == Sanitized(s, old(settings).connectionsLimit != s.connectionsLimit)
      ensures halfOpenQueueLimit == settings.halfOpenLimit
      ensures downloadThrottle == settings.downloadRateLimit && uploadThrottle == settings.uploadRateLimit
      ensures old(settings).connectionsLimit != s.connectionsLimit && |connections| > settings.connectionsLimit && transfers != [] ==>
        calls == old(calls) + LimitCalls(transfers, |connections|, settings.connectionsLimit)
      ensures !(old(settings).connectionsLimit != s.connectionsLimit && |connections| > settings.connectionsLimit && transfers != []) ==>
        calls == old(calls)
    {
      var limitChanged := settings.connectionsLimit != s.connectionsLimit;
      settings := s;
      if settings.cacheBufferChunkSize <= 0 {
        settings := settings.(cacheBufferChunkSize := 1);
      }
      UpdateRateSettings();
      if limitChanged {
        UpdateConnectionsLimit();
      }
      if settings.connectionSpeed < 0 {
        settings := settings.(connectionSpeed := 200);
      }
    }
  }

  /** The do_pause calls for every transfer, in map order. */
  function PauseCalls(ts: seq<TransferEntry>): (r: seq<Call>)
    ensures |r| == |ts| && forall i :: 0 <= i < |ts| ==> r[i] == DoPause(ts[i].hash)
  {
    seq(|ts|, i requires 0 <= i < |ts| => DoPause(ts[i].hash))
  }

  function ResumeCalls(ts: seq<TransferEntry>): (r: seq<Call>)
    ensures |r| == |ts| && forall i :: 0 <= i < |ts| ==> r[i] == DoResume(ts[i].hash)
  {
    seq(|ts|, i requires 0 <= i < |ts| => DoResume(ts[i].hash))
  }

  lemma PauseCallsStep(ts: seq<TransferEntry>, i: nat)
    requires i < |ts|
    ensures PauseCalls(ts[..i + 1]) == PauseCalls(ts[..i]) + [DoPause(ts[i].hash)]
  {
  }

  lemma ResumeCallsStep(ts: seq<TransferEntry>, i: nat)
    requires i < |ts|
    ensures ResumeCalls(ts[..i + 1]) == ResumeCalls(ts[..i]) + [DoResume(ts[i].hash)]
  {
  }

  /** The map after server_conn_stop: nothing is announced, everything else as before. */
  function Unannounced(ts: seq<TransferEntry>): (r: seq<TransferEntry>)
    ensures |r| == |ts| && forall i :: 0 <= i < |ts| ==> r[i] == ts[i].(announced := false)
  {
    seq(|ts|, i requires 0 <= i < |ts| => ts[i].(announced := false))
  }

  lemma UnannouncedKeepsSorted(ts: seq<TransferEntry>)
    requires HashesSorted(ts)
    ensures HashesSorted(Unannounced(ts))
  {
  }

  lemma MarkAnnouncedStep(ts: seq<TransferEntry>, i: nat, sel: seq<Hash>, add: seq<Hash>)
    requires i < |ts| && HashesSorted(ts)
    requires forall h :: h in sel ==> exists j :: 0 <= j < i && ts[j].hash == h
    requires add == [] || add == [ts[i].hash]
    ensures MarkAnnounced(ts[..i], sel) + [if add == [] then ts[i] else ts[i].(announced := true)]
      == MarkAnnounced(ts[..i + 1], sel + add)
  {
    var a := MarkAnnounced(ts[..i], sel) + [if add == [] then ts[i] else ts[i].(announced := true)];
    var b := MarkAnnounced(ts[..i + 1], sel + add);
    forall j | 0 <= j < i + 1 ensures a[j] == b[j] {
      if j == i {
        assert ts[i].hash !in sel;
      }
    }
  }

  lemma MarkAnnouncedRest(ts: seq<TransferEntry>, i: nat, sel: seq<Hash>)
    requires i <= |ts| && HashesSorted(ts)
    requires forall h :: h in sel ==> exists j :: 0 <= j < i && ts[j].hash == h
    ensures MarkAnnounced(ts[..i], sel) + ts[i..] == MarkAnnounced(ts, sel)
  {
    var a := MarkAnnounced(ts[..i], sel) + ts[i..];
    forall j | i <= j < |ts| ensures ts[j].hash !in sel {
    }
    assert a == MarkAnnounced(ts, sel);
  }

  /**
   * The loop of announce over the transfers in map order: it marks each eligible transfer
   * announced and collects its hash, until max hashes are collected.
   */
  method SelectAndMark(ts: seq<TransferEntry>, max: nat) returns (sel: seq<Hash>, marked: seq<TransferEntry>)
    requires HashesSorted(ts)
    ensures sel == Selection(ts, 0, max)
    ensures marked == MarkAnnounced(ts, sel) && HashesSorted(marked)
  {
    sel := [];
    var prefix: seq<TransferEntry> := [];
    var i := 0;
    while i < |ts| && |sel| < max
      invariant 0 <= i <= |ts|
      invariant sel + Selection(ts[i..], |sel|, max) == Selection(ts, 0, max)
      invariant prefix == MarkAnnounced(ts[..i], sel)
      invariant forall h :: h in sel ==> exists j :: 0 <= j < i && ts[j].hash == h
    {
      assert ts[i..][1..] == ts[i + 1..];
      if !ts[i].announced && ts[i].announceable {
        MarkAnnouncedStep(ts, i, sel, [ts[i].hash]);
        prefix := prefix + [ts[i].(announced := true)];
        sel := sel + [ts[i].hash];
      } else {
        MarkAnnouncedStep(ts, i, sel, []);
        assert sel + [] == sel;
        prefix := prefix + [ts[i]];
      }
      i := i + 1;
    }
    assert sel == Selection(ts, 0, max) by {
      if i == |ts| {
        assert ts[i..] == [];
      }
    }
    MarkAnnouncedRest(ts, i, sel);
    marked := prefix + ts[i..];
    assert forall j :: 0 <= j < |ts| ==> marked[j].hash == ts[j].hash;
  }

  /** The computation of update_connections_limit over the limit: shares, requests, then the calls. */
  method LimitLoop(ts: seq<TransferEntry>, numConnections: int, limit: int) returns (cs: seq<Call>)
    requires ts != [] && limit > 0
    ensures cs == LimitCalls(ts, numConnections, limit)
  {
    var peers := PeerCounts(ts);
    var share := RebalanceLoop(peers, limit / |ts|, limit % |ts|);
    var asks := DistributeLoop(peers, share.average, share.extra, numConnections - limit);
    cs := DisconnectLoop(ts, asks);
  }

  /** The last loop of update_connections_limit: one disconnect_peers call per asked transfer. */
  method DisconnectLoop(ts: seq<TransferEntry>, asks: seq<Option<int>>) returns (cs: seq<Call>)
    requires |asks| == |ts|
    ensures cs == DisconnectCalls(ts, asks)
  {
    cs := [];
    var i := 0;
    while i < |ts|
      invariant 0 <= i <= |ts|
      invariant cs + DisconnectCalls(ts[i..], asks[i..]) == DisconnectCalls(ts, asks)
    {
      assert ts[i..][1..] == ts[i + 1..] && asks[i..][1..] == asks[i + 1..];
      if asks[i].Some? {
        cs := cs + [DisconnectPeers(ts[i].hash, asks[i].value)];
      }
      i := i + 1;
    }
  }

  /** The rounds of update_connections_limit as the nested loops compute them. */
  method RebalanceLoop(peers: seq<nat>, average0: int, extra0: int) returns (share: Share)
    requires extra0 >= 0
    ensures share == Rebalance(peers, 0, average0, extra0, 0)
  {
    var lastAverage := 0;
    var average := average0;
    var extra := extra0;
    var round := 0;
    var stopped := false;
    while round < 4 && !stopped
      invariant 0 <= round <= 4 && extra >= 0
      invariant !stopped ==> Rebalance(peers, lastAverage, average, extra, round) == Rebalance(peers, 0, average0, extra0, 0)
      invariant stopped ==> Share(average, extra) == Rebalance(peers, 0, average0, extra0, 0)
      decreases 4 - round, if stopped then 0 else 1
    {
      ghost var before := Rebalance(peers, lastAverage, average, extra, round);
      var numAbove, gained := CountRound(peers, lastAverage, average, extra);
      if numAbove == 0 {
        numAbove := 1;
      }
      lastAverage := average;
      average := average + gained / numAbove;
      if gained == 0 {
        stopped := true;
        extra := gained;
      } else {
        extra := gained % numAbove;
        round := round + 1;
      }
    }
    share := Share(average, extra);
  }

  /**
   * One pass of a rebalancing round: the transfers above both averages, and the extra
   * slots plus those freed by transfers between the last and the current average.
   */
  method CountRound(peers: seq<nat>, lastAverage: int, average: int, extra: int) returns (numAbove: nat, gained: int)
    ensures numAbove == CountAbove(peers, lastAverage, average)
    ensures gained == extra + Gain(peers, lastAverage, average)
  {
    numAbove := 0;
    gained := extra;
    var i := 0;
    while i < |peers|
      invariant 0 <= i <= |peers|
      invariant numAbove == CountAbove(peers[..i], lastAverage, average)
      invariant gained == extra + Gain(peers[..i], lastAverage, average)
    {
      assert peers[..i + 1][..i] == peers[..i];
      var num := peers[i];
      if num > lastAverage {
        if num > average {
          numAbove := numAbove + 1;
        }
        if num < average {
          gained := gained + (average - num);
        }
      }
      i := i + 1;
    }
    assert peers[..i] == peers;
  }

  /** The final loop of update_connections_limit, over the transfers in map order. */
  method DistributeLoop(peers: seq<nat>, average: int, extra0: int, toDisconnect: int) returns (asks: seq<Option<int>>)
    ensures asks == Distribute(peers, average, extra0, toDisconnect)
    ensures |asks| == |peers|
  {
    asks := [];
    var extra := extra0;
    var remaining := toDisconnect;
    var i := 0;
    ghost var all := Distribute(peers, average, extra0, toDisconnect);
    while i < |peers|
      invariant 0 <= i <= |peers|
      invariant asks + Distribute(peers[i..], average, extra, remaining) == all
      invariant |asks| == i
    {
      DistributeAdvance(peers, i, average, extra, remaining, asks, all);
      var num := peers[i];
      if num <= average {
        asks := asks + [None];
      } else {
        ghost var extraBefore := extra;
        var myAverage := average;
        if extra > 0 {
          myAverage := myAverage + 1;
          extra := extra - 1;
        }
        assert myAverage == (if extraBefore > 0 then average + 1 else average);
        assert extra == (if extraBefore > 0 then extraBefore - 1 else extraBefore);
        var d := if remaining < num - myAverage then remaining else num - myAverage;
        remaining := remaining - d;
        asks := asks + [Some(d)];
      }
      i := i + 1;
    }
    assert peers[i..] == [];
  }
}
