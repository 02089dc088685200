/** The central directory under construction: a chain of fixed-size blocks, kept
    here as the sequence of their filled parts. */
module DataBlocks {
  import opened Bytes

  const BLOCK_SIZE: nat := 4096 - 4 * 4

  /** Pieces one after the other. */
  function Join(pieces: seq<seq<byte>>): seq<byte>
  {
    if pieces == [] then [] else Join(pieces[..|pieces| - 1]) + pieces[|pieces| - 1]
  }

  lemma JoinSnoc(pieces: seq<seq<byte>>, p: seq<byte>)
    ensures Join(pieces + [p]) == Join(pieces) + p
  {
  }

  /** Adding to the last piece adds to the whole. */
  lemma LastGrows(pieces: seq<seq<byte>>, p: seq<byte>)
    requires pieces != []
    ensures var n := |pieces| - 1; Join(pieces[n := pieces[n] + p]) == Join(pieces) + p
  {
    var n := |pieces| - 1;
    assert pieces[n := pieces[n] + p][..n] == pieces[..n];
    assert Join(pieces[..n]) + (pieces[n] + p) == Join(pieces) + p;
  }

  lemma PieceFollows(a: seq<byte>, buf: seq<byte>, done: nat, n: nat)
    requires done + n <= |buf|
    ensures a + buf[..done] + buf[done..done + n] == a + buf[..done + n]
  {
  }

  lemma StartBlocks(a: seq<byte>, buf: seq<byte>)
    ensures Join([]) == Join([[]]) == [] && a + buf[..0] == a
  {
    assert Join([[]]) == Join([]) + [];
  }

  lemma NewBlock(pieces: seq<seq<byte>>)
    ensures Join(pieces + [[]]) == Join(pieces)
  {
    JoinSnoc(pieces, []);
  }

  class BlockList {
    var blocks: seq<seq<byte>>

    /** Only the last block may have room left. */
    ghost predicate Valid()
      reads this
    {
      && (forall i :: 0 <= i < |blocks| ==> |blocks[i]| <= BLOCK_SIZE)
      && (forall i :: 0 <= i < |blocks| - 1 ==> |blocks[i]| == BLOCK_SIZE)
    }

    /** The bytes stored so far. */
    ghost function Contents(): seq<byte>
      reads this
    {
      Join(blocks)
    }

    constructor ()
      ensures Valid() && Contents() == []
    {
      blocks := [];
    }

    /** add_data_in_datablock: append buf, starting new blocks as needed. */
    method AddData(buf: seq<byte>)
      requires Valid()
      modifies this
      ensures Valid() && Contents() == old(Contents()) + buf
    {
      hide Join;
      StartBlocks(Contents(), buf);
      if |blocks| == 0 {
        blocks := [[]];
      }
      var done := 0;
      while done < |buf|
        invariant Valid() && blocks != [] && 0 <= done <= |buf|
        invariant Contents() == old(Contents()) + buf[..done]
      {
        if |blocks[|blocks| - 1]| == BLOCK_SIZE {
          NewBlock(blocks);
          blocks := blocks + [[]];
        }
        var n := |blocks| - 1;
        var copyThis := Min(BLOCK_SIZE - |blocks[n]|, |buf| - done);
        var piece := buf[done..done + copyThis];
        LastGrows(blocks, piece);
        PieceFollows(old(Contents()), buf, done, copyThis);
        blocks := blocks[n := blocks[n] + piece];
        done := done + copyThis;
      }
    }
  }
}
