/** Concatenation of a list of lists, shared by the dataset concatenation and the
    reassembly of embedding blocks. */
module Seqs {

  /** Concatenation of all blocks, in order. */
  function Flatten<T>(blocks: seq<seq<T>>): seq<T>
  {
    if blocks == [] then [] else blocks[0] + Flatten(blocks[1..])
  }

  /** Regrouping a concatenation of three sequences. */
  lemma AppendAssoc<T>(a: seq<T>, b: seq<T>, c: seq<T>)
    ensures (a + b) + c == a + (b + c)
  {
  }

  lemma {:induction false} FlattenAppend<T>(a: seq<seq<T>>, b: seq<seq<T>>)
    ensures Flatten(a + b) == Flatten(a) + Flatten(b)
  {
    if a == [] {
      assert a + b == b;
    } else {
      assert (a + b)[1..] == a[1..] + b;
      FlattenAppend(a[1..], b);
    }
  }

  /** An element of the concatenation lies in one of the blocks, and conversely. */
  lemma {:induction false} FlattenMember<T>(blocks: seq<seq<T>>, x: T)
    ensures x in Flatten(blocks) <==> exists k :: 0 <= k < |blocks| && x in blocks[k]
  {
    if blocks != [] {
      FlattenMember(blocks[1..], x);
      if x in blocks[0] {
      } else if x in Flatten(blocks[1..]) {
        var k :| 0 <= k < |blocks[1..]| && x in blocks[1..][k];
        assert x in blocks[k + 1];
      } else {
        forall k | 0 <= k < |blocks| ensures x !in blocks[k] {
          if k > 0 { assert blocks[k] == blocks[1..][k - 1]; }
        }
      }
    }
  }
}
