/** Byte streams delivered in pieces. */
module Streams {
  function Concat(pieces: seq<seq<char>>): seq<char> {
    if pieces == [] then [] else pieces[0] + Concat(pieces[1..])
  }

  lemma {:induction false} ConcatAppend(pieces: seq<seq<char>>, piece: seq<char>)
    ensures Concat(pieces + [piece]) == Concat(pieces) + piece
  {
    if pieces == [] {
      assert [piece][1..] == [];
    } else {
      ConcatAppend(pieces[1..], piece);
      assert (pieces + [piece])[1..] == pieces[1..] + [piece];
    }
  }
}
