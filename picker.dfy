/**
 * The piece picker as the transfer uses it: a piece count, the pieces we have, and the
 * pieces whose blocks are all written and which wait for their hash check
 * (piece_picker::is_piece_finished). The picker's own block bookkeeping is not modelled.
 */
module Picker {

  datatype Picker = Picker(numPieces: nat, have: set<nat>, finished: set<nat>)
  {
    /** Every recorded piece is a piece of the file, and a piece we have is no longer waiting. */
    ghost predicate Valid()
    {
      && (forall i :: i in have ==> i < numPieces)
      && (forall i :: i in finished ==> i < numPieces)
      && have !! finished
    }

    /** piece_picker::num_have. */
    function NumHave(): nat
    {
      |have|
    }

    /** piece_picker::is_piece_finished. */
    predicate IsPieceFinished(i: nat)
    {
      i in finished
    }
  }

  /** piece_picker::init(blocks_per_piece, blocks_in_last_piece, n): n pieces, none had, none pending. */
  function Init(n: nat): (p: Picker)
    ensures p.Valid() && p.numPieces == n && p.NumHave() == 0
    ensures forall i :: !p.IsPieceFinished(i)
  {
    Picker(n, {}, {})
  }

  /** piece_picker::we_have: the piece is had and no longer waits for its check. */
  function WeHave(p: Picker, i: nat): Picker
  {
    p.(have := p.have + {i}, finished := p.finished - {i})
  }

  /** piece_picker::restore_piece: the piece goes back to being downloaded from scratch. */
  function Restore(p: Picker, i: nat): Picker
  {
    p.(finished := p.finished - {i})
  }

  /** All blocks of piece i are written: it now waits for its hash check (done by the connections). */
  function BlocksWritten(p: Picker, i: nat): Picker
  {
    if i in p.have then p else p.(finished := p.finished + {i})
  }

  /**
   * we_have keeps the picker valid, leaves the piece count alone, counts one more piece
   * exactly when the piece was not had before, and takes the piece off the waiting list.
   */
  lemma WeHaveCounts(p: Picker, i: nat)
    requires p.Valid() && i < p.numPieces
    ensures WeHave(p, i).Valid()
    ensures WeHave(p, i).numPieces == p.numPieces
    ensures WeHave(p, i).NumHave() == p.NumHave() + (if i in p.have then 0 else 1)
    ensures !WeHave(p, i).IsPieceFinished(i)
  {
    if i in p.have {
      assert p.have + {i} == p.have;
    } else {
      assert |p.have + {i}| == |p.have| + 1;
    }
  }

  /** A valid picker never counts more pieces than the file has. */
  lemma NumHaveBounded(p: Picker)
    requires p.Valid()
    ensures p.NumHave() <= p.numPieces
  {
    var all := Range(p.numPieces);
    SubsetSize(p.have, all);
  }

  /** When every piece is had, the set of had pieces is exactly 0 .. numPieces - 1. */
  lemma AllHad(p: Picker)
    requires p.Valid() && p.NumHave() == p.numPieces
    ensures forall i :: 0 <= i < p.numPieces ==> i in p.have
  {
    var all := Range(p.numPieces);
    if p.have != all {
      var missing :| missing in all && missing !in p.have;
      assert p.have <= all - {missing};
      SubsetSize(p.have, all - {missing});
    }
  }

  /** restore_piece keeps the picker valid and changes only the piece's waiting status. */
  lemma RestoreKeeps(p: Picker, i: nat)
    requires p.Valid()
    ensures Restore(p, i).Valid()
    ensures Restore(p, i).NumHave() == p.NumHave() && !Restore(p, i).IsPieceFinished(i)
    ensures forall j :: j != i ==> Restore(p, i).IsPieceFinished(j) == p.IsPieceFinished(j)
  {
  }

  lemma BlocksWrittenKeeps(p: Picker, i: nat)
    requires p.Valid() && i < p.numPieces
    ensures BlocksWritten(p, i).Valid() && BlocksWritten(p, i).NumHave() == p.NumHave()
    ensures BlocksWritten(p, i).IsPieceFinished(i) <==> i !in p.have
  {
  }

  /** The piece indices 0 .. n - 1. */
  function Range(n: nat): (r: set<nat>)
    ensures forall i :: i in r <==> 0 <= i < n
    ensures |r| == n
  {
    if n == 0 then {}
    else
      var below := Range(n - 1);
      assert n - 1 !in below;
      below + {n - 1}
  }

  lemma {:induction false} SubsetSize(a: set<nat>, b: set<nat>)
    requires a <= b
    ensures |a| <= |b|
    decreases |b|
  {
    if a != {} {
      var x :| x in a;
      SubsetSize(a - {x}, b - {x});
    }
  }

  // ---------------------------------------------------------------------------------
  // The finished edge of piece_passed
  // ---------------------------------------------------------------------------------

  /**
   * piece_passed(i) calls finished() exactly when the picker did not have every piece
   * before we_have(i) and has every piece after it.
   */
  predicate FinishEdge(p: Picker, i: nat)
  {
    p.NumHave() != p.numPieces && WeHave(p, i).NumHave() == p.numPieces
  }

  /** we_have applied to each piece of a run of passed pieces, in order. */
  function PassAll(p: Picker, pieces: seq<nat>): Picker
    decreases |pieces|
  {
    if pieces == [] then p else PassAll(WeHave(p, pieces[0]), pieces[1..])
  }

  /** How many times a run of passed pieces crosses the finished edge. */
  function Edges(p: Picker, pieces: seq<nat>): nat
    decreases |pieces|
  {
    if pieces == [] then 0
    else (if FinishEdge(p, pieces[0]) then 1 else 0) + Edges(WeHave(p, pieces[0]), pieces[1..])
  }

  /** A run of passed pieces never loses a piece, never grows the file and keeps the picker valid. */
  lemma {:induction false} PassAllGrows(p: Picker, pieces: seq<nat>)
    requires p.Valid() && forall k :: 0 <= k < |pieces| ==> pieces[k] < p.numPieces
    ensures PassAll(p, pieces).Valid() && PassAll(p, pieces).numPieces == p.numPieces
    ensures p.NumHave() <= PassAll(p, pieces).NumHave() <= p.numPieces
    decreases |pieces|
  {
    NumHaveBounded(p);
    if pieces != [] {
      WeHaveCounts(p, pieces[0]);
      PassAllGrows(WeHave(p, pieces[0]), pieces[1..]);
    }
  }

  /**
   * finished() runs at most once: along any run of passed pieces the edge is crossed once
   * when the run starts short of the last piece and ends with every piece, and never otherwise.
   */
  lemma {:induction false} EdgesExact(p: Picker, pieces: seq<nat>)
    requires p.Valid() && forall k :: 0 <= k < |pieces| ==> pieces[k] < p.numPieces
    ensures Edges(p, pieces) == if p.NumHave() != p.numPieces && PassAll(p, pieces).NumHave() == p.numPieces then 1 else 0
    decreases |pieces|
  {
    if pieces != [] {
      var q := WeHave(p, pieces[0]);
      WeHaveCounts(p, pieces[0]);
      NumHaveBounded(p);
      EdgesExact(q, pieces[1..]);
      PassAllGrows(q, pieces[1..]);
    }
  }
}
