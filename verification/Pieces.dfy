/** Cutting a byte sequence into pieces of one size, and putting pieces together. */
module Pieces {
  import opened Bytes

  /** Pieces of the given size, the last one possibly shorter but not empty. */
  function Split(data: seq<byte>, size: nat): seq<seq<byte>>
    requires size > 0
    decreases |data|
  {
    if |data| == 0 then []
    else if |data| <= size then [data]
    else [data[..size]] + Split(data[size..], size)
  }

  function Flatten(pieces: seq<seq<byte>>): seq<byte> {
    if pieces == [] then [] else pieces[0] + Flatten(pieces[1..])
  }

  /** The pieces make up the data, all but the last are full, and none is empty. */
  lemma {:induction false} SplitPieces(data: seq<byte>, size: nat)
    requires size > 0
    ensures Flatten(Split(data, size)) == data
    ensures forall i :: 0 <= i < |Split(data, size)| ==> 0 < |Split(data, size)[i]| <= size
    ensures forall i :: 0 <= i < |Split(data, size)| - 1 ==> |Split(data, size)[i]| == size
    decreases |data|
  {
    var ps := Split(data, size);
    if 0 < |data| <= size {
      assert ps[1..] == [] && Flatten(ps) == data + [];
    } else if |data| > size {
      SplitPieces(data[size..], size);
      assert ps[1..] == Split(data[size..], size) && ps[0] == data[..size];
      assert data == data[..size] + data[size..];
      assert forall i :: 1 <= i < |ps| ==> ps[i] == ps[1..][i - 1];
      assert |Split(data[size..], size)| > 0;
    }
  }
}
