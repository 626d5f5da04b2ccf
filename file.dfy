/**
 * The small value types of file.hpp (hash_status, the known.met header check,
 * emule_collection_entry) and the queue of monitor_order, taken sequentially.
 */
module File {
  import opened Base

  /** An unsigned byte (boost::uint8_t). */
  newtype Byte = b: int | 0 <= b < 256

  // ---------------------------------------------------------------------------------
  // hash_status
  // ---------------------------------------------------------------------------------

  /**
   * hash_status: an error code (0 is errors::no_error, which converts to false) and the
   * progress pair (current piece, total pieces).
   */
  datatype HashStatus = HashStatus(error: int, current: int, total: int)
  {
    /** valid(): no error. */
    predicate Valid()
    {
      error == 0
    }

    /** completed(): some piece is done and the current piece is the last one. */
    predicate Completed()
    {
      current != 0 && current == total
    }

    /** operator==: same error and same progress. */
    predicate Same(other: HashStatus)
    {
      error == other.error && current == other.current && total == other.total
    }
  }

  /** The default hash_status: no error, progress value-initialised to (0, 0). */
  const DefaultHashStatus: HashStatus := HashStatus(0, 0, 0)

  /**
   * A default status is valid and not completed; a completed status has a non-zero
   * total; completion does not depend on the error; operator== is value equality.
   */
  lemma HashStatusFacts(s: HashStatus, t: HashStatus)
    ensures DefaultHashStatus.Valid() && !DefaultHashStatus.Completed()
    ensures s.Completed() ==> s.total != 0 && s.current == s.total
    ensures s.Completed() == s.(error := t.error).Completed()
    ensures s.Same(t) <==> s == t
  {
  }

  // ---------------------------------------------------------------------------------
  // known_file_collection: the header check of save and load
  // ---------------------------------------------------------------------------------

  /** MET_HEADER. */
  const MetHeader: Byte := 0x0E
  /** MET_HEADER_WITH_LARGEFILES. */
  const MetHeaderWithLargeFiles: Byte := 0x0F

  predicate ValidHeader(h: Byte)
  {
    h == MetHeader || h == MetHeaderWithLargeFiles
  }

  /**
   * known_file_collection: the header byte and the known file list, the latter as the
   * bytes its own serializer reads and writes.
   */
  datatype KnownFileCollection = KnownFileCollection(header: Byte, list: seq<Byte>)

  /** What goes wrong: errors::known_file_invalid_header, or an archive with nothing left to read. */
  datatype ArchiveError = InvalidHeader | EndOfArchive

  /** The archive after save: what was written, or the exception that stopped it. */
  datatype Saved = Saved(out: seq<Byte>) | SaveFailed(error: ArchiveError)

  /** The collection after load, and the exception load threw, if any. */
  datatype Loaded = Loaded(state: KnownFileCollection, error: Option<ArchiveError>)

  /** save(ar) on an archive that already holds `out`: the header check comes before any write. */
  function Save(c: KnownFileCollection, out: seq<Byte>): (r: Saved)
    ensures r.SaveFailed? <==> !ValidHeader(c.header)
    ensures r.SaveFailed? ==> r.error == InvalidHeader
    ensures r.Saved? ==> |r.out| == |out| + 1 + |c.list| && r.out[..|out|] == out
  {
    if !ValidHeader(c.header) then SaveFailed(InvalidHeader)
    else Saved(out + [c.header] + c.list)
  }

  /**
   * load(ar) into collection c: the header is read into c first and checked afterwards,
   * so a bad header is kept in c when the exception is thrown; the list is read only
   * after a good header.
   */
  function Load(c: KnownFileCollection, input: seq<Byte>): Loaded
  {
    if input == [] then Loaded(c, Some(EndOfArchive))
    else if !ValidHeader(input[0]) then Loaded(c.(header := input[0]), Some(InvalidHeader))
    else Loaded(KnownFileCollection(input[0], input[1..]), None)
  }

  /** Whatever a collection held, loading what save wrote gives back the saved collection. */
  lemma SaveLoadRoundTrip(c: KnownFileCollection, target: KnownFileCollection)
    requires ValidHeader(c.header)
    ensures Save(c, []).Saved?
    ensures Load(target, Save(c, []).out) == Loaded(c, None)
  {
    assert ([c.header] + c.list)[1..] == c.list;
  }

  /**
   * load succeeds exactly on an archive that starts with a valid header; a bad header
   * throws known_file_invalid_header with the header already stored and the list untouched.
   */
  lemma LoadHeaderCheck(c: KnownFileCollection, input: seq<Byte>)
    ensures Load(c, input).error.None? <==> input != [] && ValidHeader(input[0])
    ensures input != [] && !ValidHeader(input[0]) ==>
      Load(c, input) == Loaded(KnownFileCollection(input[0], c.list), Some(InvalidHeader))
    ensures input != [] ==> Load(c, input).state.header == input[0]
  {
  }

  // ---------------------------------------------------------------------------------
  // emule_collection_entry
  // ---------------------------------------------------------------------------------

  /** An md4_hash as its bytes; md4_hash.hpp is not part of this model. */
  datatype Md4Hash = Md4Hash(bytes: seq<Byte>)
  {
    /** md4_hash::defined: some byte is non-zero. */
    predicate Defined()
    {
      exists i :: 0 <= i < |bytes| && bytes[i] != 0
    }
  }

  /** The default md4_hash: sixteen zero bytes. */
  const InvalidHash: Md4Hash := Md4Hash(seq(16, _ => 0))

  /** emule_collection_entry: file name, file size, file hash. */
  datatype CollectionEntry = CollectionEntry(filename: string, filesize: int, filehash: Md4Hash)
  {
    /** defined(): a name, a non-zero size and a defined hash. */
    predicate Defined()
    {
      filename != [] && filesize != 0 && filehash.Defined()
    }

    /** operator==: the three fields compare equal. */
    predicate Same(other: CollectionEntry)
    {
      filename == other.filename && filesize == other.filesize && filehash == other.filehash
    }
  }

  /** The default emule_collection_entry: empty name, size 0, default hash. */
  const DefaultEntry: CollectionEntry := CollectionEntry("", 0, InvalidHash)

  /**
   * operator== is value equality on the three fields, so equal entries agree on
   * defined(); a default entry is not defined, and neither is one with a zero size.
   */
  lemma CollectionEntryFacts(e: CollectionEntry, f: CollectionEntry)
    ensures e.Same(f) <==> e == f
    ensures e.Same(f) ==> (e.Defined() <==> f.Defined())
    ensures !DefaultEntry.Defined()
    ensures e.filesize == 0 ==> !e.Defined()
  {
    assert !InvalidHash.Defined() by {
      forall i | 0 <= i < |InvalidHash.bytes| ensures InvalidHash.bytes[i] == 0 {
      }
    }
  }

  // ---------------------------------------------------------------------------------
  // monitor_order, one thread at a time
  // ---------------------------------------------------------------------------------

  /** The queue with every element equal to d erased (std::remove + erase), order kept. */
  function Without<Data(==)>(q: seq<Data>, d: Data): seq<Data>
  {
    if q == [] then []
    else (if q[0] == d then [] else [q[0]]) + Without(q[1..], d)
  }

  /**
   * cancel(d) erases exactly the elements equal to d: none is left and every other
   * element keeps its number of occurrences.
   */
  lemma {:induction false} WithoutSpec<Data>(q: seq<Data>, d: Data)
    ensures d !in Without(q, d)
    ensures forall x :: x != d ==> multiset(Without(q, d))[x] == multiset(q)[x]
    ensures |Without(q, d)| == |q| - multiset(q)[d]
  {
    if q != [] {
      WithoutSpec(q[1..], d);
      var h, w := if q[0] == d then [] else [q[0]], Without(q[1..], d);
      assert q == [q[0]] + q[1..];
      assert multiset(q) == multiset([q[0]]) + multiset(q[1..]);
      assert multiset(Without(q, d)) == multiset(h) + multiset(w);
    }
  }

  /** Erasing distributes over concatenation, so the elements that stay keep their order. */
  lemma {:induction false} WithoutAppend<Data>(a: seq<Data>, b: seq<Data>, d: Data)
    ensures Without(a + b, d) == Without(a, d) + Without(b, d)
  {
    if a == [] {
      assert a + b == b;
    } else {
      assert (a + b)[0] == a[0];
      assert (a + b)[1..] == a[1..] + b;
      WithoutAppend(a[1..], b, d);
      var h := if a[0] == d then [] else [a[0]];
      assert h + (Without(a[1..], d) + Without(b, d)) == (h + Without(a[1..], d)) + Without(b, d);
    }
  }

  /** A run of push calls, first element first: each new element goes to the front. */
  function PushAll<Data>(q: seq<Data>, xs: seq<Data>): seq<Data>
    decreases |xs|
  {
    if xs == [] then q else PushAll([xs[0]] + q, xs[1..])
  }

  /** What repeated pop_wait calls return until the queue is empty: the back element each time. */
  function PopAll<Data>(q: seq<Data>): seq<Data>
  {
    if q == [] then [] else [q[|q| - 1]] + PopAll(q[..|q| - 1])
  }

  lemma {:induction false} PopAllFront<Data>(x: Data, q: seq<Data>)
    ensures PopAll([x] + q) == PopAll(q) + [x]
    decreases |q|
  {
    if q == [] {
      assert PopAll([x]) == [x] + PopAll([]);
    } else {
      var r := [x] + q;
      assert r[..|r| - 1] == [x] + q[..|q| - 1];
      PopAllFront(x, q[..|q| - 1]);
    }
  }

  /**
   * monitor_order is first in, first out: after pushing xs onto q, popping everything
   * returns what q held, then xs in push order.
   */
  lemma {:induction false} Fifo<Data>(q: seq<Data>, xs: seq<Data>)
    ensures PopAll(PushAll(q, xs)) == PopAll(q) + xs
    decreases |xs|
  {
    if xs != [] {
      Fifo([xs[0]] + q, xs[1..]);
      PopAllFront(xs[0], q);
      assert xs == [xs[0]] + xs[1..];
    }
  }

  /**
   * monitor_order<Data> with its mutex and condition variable left out. The ghost counts
   * record how many elements were pushed, popped, and dropped by cancel or abort.
   */
  class MonitorOrder<Data(==)> {
    var cancelled: bool         // m_cancelled
    var queue: seq<Data>        // m_queue, front first
    ghost var pushes: nat
    ghost var pops: nat
    ghost var drops: nat

    /** size() is always the pushes minus the pops minus the elements dropped. */
    ghost predicate Valid()
      reads this
    {
      |queue| + pops + drops == pushes
    }

    constructor()
      ensures Valid() && !cancelled && queue == []
      ensures pushes == 0 && pops == 0 && drops == 0
    {
      cancelled := false;
      queue := [];
      pushes, pops, drops := 0, 0, 0;
    }

    /** push(data): to the front; duplicates are not checked. */
    method Push(d: Data)
      requires Valid()
      modifies this
      ensures Valid()
      ensures queue == [d] + old(queue) && cancelled == old(cancelled)
      ensures pushes == old(pushes) + 1 && pops == old(pops) && drops == old(drops)
    {
      queue := [d] + queue;
      pushes := pushes + 1;
    }

    /** abort(): every element goes and waiting is cancelled. */
    method Abort()
      requires Valid()
      modifies this
      ensures Valid()
      ensures queue == [] && cancelled
      ensures pushes == old(pushes) && pops == old(pops) && drops == old(drops) + |old(queue)|
    {
      drops := drops + |queue|;
      queue := [];
      cancelled := true;
    }

    /** cancel(data): every element equal to data goes; the others keep their order. */
    method Cancel(d: Data)
      requires Valid()
      modifies this
      ensures Valid()
      ensures queue == Without(old(queue), d) && cancelled == old(cancelled)
      ensures pushes == old(pushes) && pops == old(pops)
      ensures drops == old(drops) + multiset(old(queue))[d]
    {
      WithoutSpec(queue, d);
      drops := drops + multiset(queue)[d];
      queue := Without(queue, d);
    }

    /** size(). */
    method Size() returns (n: nat)
      requires Valid()
      ensures n == |queue| && n == pushes - pops - drops
    {
      n := |queue|;
    }

    /** reset(): waiting is allowed again; the elements stay. */
    method Reset()
      modifies this`cancelled
      ensures !cancelled
    {
      cancelled := false;
    }

    /**
     * pop_wait(data), without blocking: nothing while cancelled or empty, otherwise the
     * back element, which leaves the queue.
     */
    method PopWait() returns (r: Option<Data>)
      requires Valid()
      modifies this`queue, this`pops
      ensures Valid()
      ensures old(cancelled) || old(queue) == [] ==> r.None? && queue == old(queue) && pops == old(pops)
      ensures !old(cancelled) && old(queue) != [] ==>
        && r == Some(old(queue)[|old(queue)| - 1])
        && queue == old(queue)[..|old(queue)| - 1]
        && [r.value] + PopAll(queue) == PopAll(old(queue))
        && pops == old(pops) + 1
    {
      if cancelled {
        return None;
      }
      if queue == [] {
        return None;
      }
      r := Some(queue[|queue| - 1]);
      queue := queue[..|queue| - 1];
      pops := pops + 1;
    }
  }
}
