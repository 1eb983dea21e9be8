/** The canonical Huffman code of a vector of code lengths (section 3.2.2 of RFC 1951). */
module CanonicalCode {
  import opened Bits

  const MAX_LENGTH: nat := 15
  const MAX_SYMBOLS: nat := 288

  /** A code length per symbol; zero for a symbol that does not occur. */
  predicate ValidLengths(lengths: seq<nat>) {
    |lengths| <= MAX_SYMBOLS && forall i :: 0 <= i < |lengths| ==> lengths[i] <= MAX_LENGTH
  }

  /** How many symbols have a code of s bits. */
  function Count(lengths: seq<nat>, s: nat): nat {
    if lengths == [] then 0
    else Count(lengths[..|lengths| - 1], s) + (if lengths[|lengths| - 1] == s then 1 else 0)
  }

  /** The smallest code of s bits. */
  function FirstCode(lengths: seq<nat>, s: nat): nat {
    if s <= 1 then 0 else 2 * (FirstCode(lengths, s - 1) + Count(lengths, s - 1))
  }

  /** The position of symbol i among the symbols of its length. */
  function Rank(lengths: seq<nat>, i: nat): nat
    requires i < |lengths|
  {
    Count(lengths[..i], lengths[i])
  }

  /** The code word of symbol i: codes of one length are consecutive, in symbol order. */
  function Code(lengths: seq<nat>, i: nat): nat
    requires i < |lengths|
  {
    FirstCode(lengths, lengths[i]) + Rank(lengths, i)
  }

  /** The code word of symbol i begins the 16 bits of k, most significant bit first. */
  predicate Matches(lengths: seq<nat>, i: nat, k: nat)
    requires i < |lengths| && lengths[i] <= MAX_LENGTH
  {
    lengths[i] > 0 && Shr(k, 16 - lengths[i]) == Code(lengths, i)
  }

  /** Sixteen-bit prefixes below this start with a code word of at most s bits. */
  function Boundary(lengths: seq<nat>, s: nat): nat
    requires s <= MAX_LENGTH
  {
    if s == 0 then 0 else Shl(FirstCode(lengths, s) + Count(lengths, s), 16 - s)
  }

  /** The Kraft sum, in units of 2^-16. */
  function Kraft(lengths: seq<nat>): nat
    requires forall i :: 0 <= i < |lengths| ==> lengths[i] <= MAX_LENGTH
  {
    if lengths == [] then 0
    else
      var s := lengths[|lengths| - 1];
      Kraft(lengths[..|lengths| - 1]) + (if s == 0 then 0 else Shl(1, 16 - s))
  }

  // ---------------------------------------------------------------- counting

  lemma {:induction false} CountPrefix(lengths: seq<nat>, i: nat, s: nat)
    requires i < |lengths|
    ensures Count(lengths[..i + 1], s) == Count(lengths[..i], s) + (if lengths[i] == s then 1 else 0)
    ensures Count(lengths[..i + 1], s) <= Count(lengths, s)
    decreases |lengths|
  {
    var n := |lengths| - 1;
    assert lengths[..i + 1][..i] == lengths[..i];
    if i == n {
      assert lengths[..i + 1] == lengths;
    } else {
      CountPrefix(lengths[..n], i, s);
      assert lengths[..n][..i + 1] == lengths[..i + 1];
    }
  }

  lemma RankBound(lengths: seq<nat>, i: nat)
    requires i < |lengths|
    ensures Rank(lengths, i) < Count(lengths, lengths[i])
  {
    CountPrefix(lengths, i, lengths[i]);
  }

  lemma {:induction false} RankOrder(lengths: seq<nat>, i: nat, j: nat)
    requires i < j < |lengths| && lengths[i] == lengths[j]
    ensures Rank(lengths, i) < Rank(lengths, j)
  {
    CountPrefix(lengths[..j], i, lengths[i]);
    assert lengths[..j][..i + 1] == lengths[..i + 1] && lengths[..j][..i] == lengths[..i];
  }

  /** Every rank below the count is taken. */
  lemma {:induction false} SymbolOfRank(lengths: seq<nat>, s: nat, r: nat) returns (i: nat)
    requires r < Count(lengths, s)
    ensures i < |lengths| && lengths[i] == s && Rank(lengths, i) == r
    decreases |lengths|
  {
    var n := |lengths| - 1;
    if r < Count(lengths[..n], s) {
      i := SymbolOfRank(lengths[..n], s, r);
      assert lengths[..n][..i] == lengths[..i];
    } else {
      i := n;
    }
  }

  // ---------------------------------------------------------------- code space

  lemma BoundaryStep(lengths: seq<nat>, s: nat)
    requires 1 <= s <= MAX_LENGTH
    ensures Shl(FirstCode(lengths, s), 16 - s) == Boundary(lengths, s - 1)
    ensures Boundary(lengths, s) == Boundary(lengths, s - 1) + Shl(Count(lengths, s), 16 - s)
  {
    ShlSum(FirstCode(lengths, s), Count(lengths, s), 16 - s);
    if s == 1 {
      ShlOrder(0, 0, 15);
    } else {
      ShlDouble(FirstCode(lengths, s - 1) + Count(lengths, s - 1), 16 - s);
    }
  }

  lemma {:induction false} BoundaryOrder(lengths: seq<nat>, s: nat, t: nat)
    requires s <= t <= MAX_LENGTH
    ensures Boundary(lengths, s) <= Boundary(lengths, t)
    decreases t
  {
    if s < t {
      BoundaryStep(lengths, t);
      BoundaryOrder(lengths, s, t - 1);
    }
  }

  /** A prefix starts with a code word of s bits exactly when it lies between two boundaries. */
  lemma MatchRange(lengths: seq<nat>, i: nat, k: nat)
    requires i < |lengths| && lengths[i] <= MAX_LENGTH && Matches(lengths, i, k)
    ensures Boundary(lengths, lengths[i] - 1) <= k < Boundary(lengths, lengths[i])
  {
    var s := lengths[i];
    Split(k, 16 - s);
    LowBound(k, 16 - s);
    BoundaryStep(lengths, s);
    RankBound(lengths, i);
    ShlMonotonic(FirstCode(lengths, s), Code(lengths, i), 16 - s);
    ShlOrder(Code(lengths, i), FirstCode(lengths, s) + Count(lengths, s), 16 - s);
  }

  lemma ShlMonotonic(a: nat, b: nat, k: nat)
    requires a <= b
    ensures Shl(a, k) <= Shl(b, k)
  {
  }

  /** No two code words begin the same bits: the code is prefix-free. */
  lemma MatchUnique(lengths: seq<nat>, i: nat, j: nat, k: nat)
    requires i < |lengths| && lengths[i] <= MAX_LENGTH && Matches(lengths, i, k)
    requires j < |lengths| && lengths[j] <= MAX_LENGTH && Matches(lengths, j, k)
    ensures i == j
  {
    MatchRange(lengths, i, k);
    MatchRange(lengths, j, k);
    if lengths[i] < lengths[j] {
      BoundaryOrder(lengths, lengths[i], lengths[j] - 1);
    } else if lengths[j] < lengths[i] {
      BoundaryOrder(lengths, lengths[j], lengths[i] - 1);
    } else if i < j {
      RankOrder(lengths, i, j);
    } else if j < i {
      RankOrder(lengths, j, i);
    }
  }

  lemma MatchExists(lengths: seq<nat>, s: nat, k: nat) returns (i: nat)
    requires 1 <= s <= MAX_LENGTH
    requires Boundary(lengths, s - 1) <= k < Boundary(lengths, s)
    ensures FirstCode(lengths, s) <= Shr(k, 16 - s)
    ensures i < |lengths| && lengths[i] == s && Matches(lengths, i, k)
    ensures Rank(lengths, i) == Shr(k, 16 - s) - FirstCode(lengths, s)
  {
    var c := Shr(k, 16 - s);
    Split(k, 16 - s);
    LowBound(k, 16 - s);
    BoundaryStep(lengths, s);
    ShlOrder(c, FirstCode(lengths, s), 16 - s);
    if FirstCode(lengths, s) + Count(lengths, s) <= c {
      ShlMonotonic(FirstCode(lengths, s) + Count(lengths, s), c, 16 - s);
    }
    i := SymbolOfRank(lengths, s, c - FirstCode(lengths, s));
  }

  // ---------------------------------------------------------------- the order of the code words

  /** How many symbols have this length among those from i on that come before j. */
  lemma {:induction false} NoneBetween(lengths: seq<nat>, i: nat, j: nat, s: nat)
    requires i <= j <= |lengths| && forall k :: i <= k < j ==> lengths[k] != s
    ensures Count(lengths[..i], s) == Count(lengths[..j], s)
    decreases j
  {
    if i < j {
      NoneBetween(lengths, i, j - 1, s);
      assert lengths[..j][..j - 1] == lengths[..j - 1];
    }
  }

  /** The next symbol of a length has the next code word. */
  lemma NextOfLength(lengths: seq<nat>, i: nat, j: nat)
    requires i < j < |lengths| && lengths[i] == lengths[j] && forall k :: i < k < j ==> lengths[k] != lengths[i]
    ensures Code(lengths, j) == Code(lengths, i) + 1
  {
    CountPrefix(lengths, i, lengths[i]);
    NoneBetween(lengths, i + 1, j, lengths[i]);
  }

  /** The first symbol of the next length that occurs begins where the code words of the length before end: as
      fractions of the code space nothing is left out. */
  lemma NextLength(lengths: seq<nat>, i: nat, j: nat)
    requires i < |lengths| && j < |lengths| && 0 < lengths[i] < lengths[j] <= MAX_LENGTH
    requires forall k :: i < k < |lengths| ==> lengths[k] != lengths[i]
    requires forall k :: 0 <= k < j ==> lengths[k] != lengths[j]
    requires forall k :: 0 <= k < |lengths| ==> lengths[k] <= lengths[i] || lengths[j] <= lengths[k]
    ensures Shl(Code(lengths, j), 16 - lengths[j]) == Shl(Code(lengths, i) + 1, 16 - lengths[i])
  {
    CountPrefix(lengths, i, lengths[i]);
    NoneBetween(lengths, i + 1, |lengths|, lengths[i]);
    assert lengths[..|lengths|] == lengths && lengths[..0] == [];
    NoneBetween(lengths, 0, j, lengths[j]);
    BoundaryStep(lengths, lengths[j]);
    BoundaryFlat(lengths, lengths[i], lengths[j] - 1);
  }

  lemma {:induction false} BoundaryFlat(lengths: seq<nat>, s: nat, t: nat)
    requires s <= t <= MAX_LENGTH && forall k :: 0 <= k < |lengths| ==> lengths[k] <= s || t < lengths[k]
    ensures Boundary(lengths, s) == Boundary(lengths, t)
    decreases t
  {
    if s < t {
      BoundaryFlat(lengths, s, t - 1);
      BoundaryStep(lengths, t);
      assert lengths[..|lengths|] == lengths && lengths[..0] == [];
      NoneBetween(lengths, 0, |lengths|, t);
      ShlOrder(0, 0, 16 - t);
    }
  }

  /** The first symbol of the shortest length has the code word of zeros. With the two rules above this is the
      code that section 3.2.2 of RFC 1951 describes. */
  lemma FirstOfAll(lengths: seq<nat>, i: nat)
    requires i < |lengths| && 0 < lengths[i] <= MAX_LENGTH
    requires forall k :: 0 <= k < |lengths| ==> lengths[k] == 0 || lengths[i] <= lengths[k]
    requires forall k :: 0 <= k < i ==> lengths[k] != lengths[i]
    ensures Code(lengths, i) == 0
  {
    assert lengths[..0] == [];
    NoneBetween(lengths, 0, i, lengths[i]);
    BoundaryFlat(lengths, 0, lengths[i] - 1);
    BoundaryStep(lengths, lengths[i]);
    ShlLe(FirstCode(lengths, lengths[i]), 0, 16 - lengths[i]);
    ShlOrder(0, 0, 16 - lengths[i]);
  }

  // ---------------------------------------------------------------- Kraft's inequality

  lemma {:induction false} BoundaryAppend(lengths: seq<nat>, x: nat, s: nat)
    requires s <= MAX_LENGTH && x <= MAX_LENGTH
    ensures Boundary(lengths + [x], s) == Boundary(lengths, s) + (if 0 < x <= s then Shl(1, 16 - x) else 0)
    decreases s
  {
    var more := lengths + [x];
    assert more[..|more| - 1] == lengths;
    if s > 0 {
      BoundaryAppend(lengths, x, s - 1);
      BoundaryStep(lengths, s);
      BoundaryStep(more, s);
      ShlSum(Count(lengths, s), 1, 16 - s);
    }
  }

  /** All code words together use up the Kraft sum of the code space. */
  lemma {:induction false} BoundaryIsKraft(lengths: seq<nat>)
    requires forall i :: 0 <= i < |lengths| ==> lengths[i] <= MAX_LENGTH
    ensures Boundary(lengths, MAX_LENGTH) == Kraft(lengths)
  {
    if lengths == [] {
      EmptyBoundary(MAX_LENGTH);
    } else {
      var n := |lengths| - 1;
      assert lengths == lengths[..n] + [lengths[n]];
      BoundaryIsKraft(lengths[..n]);
      BoundaryAppend(lengths[..n], lengths[n], MAX_LENGTH);
    }
  }

  lemma {:induction false} EmptyBoundary(s: nat)
    requires s <= MAX_LENGTH
    ensures Boundary([], s) == 0
  {
    if s > 0 {
      EmptyBoundary(s - 1);
      BoundaryStep([], s);
      ShlOrder(0, 0, 16 - s);
    }
  }
}
