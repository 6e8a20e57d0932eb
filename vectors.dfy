/**
  The test vectors of the crate's test `it_works` and its sort scenario: the
  identifiers of twelve timestamps, put through `sort`, come out in timestamp
  order, each with its expected text, and a later timestamp sorts after them all.
*/
module LexicoidVectors {
  import opened Digits
  import opened LexicoidLib

  /** The timestamps of the test table, in the table's (ascending) order. */
  const Timestamps: seq<U64> := [0, 100, 10000, 500000, 1700000, 28000000, 550000000, 1550000000, 1654301676, 1654401676, 1674301676, 1674301677]

  /**
    A vector holds once its byte count n, its base-32 numeral g and the spelling
    of g are known: the shape every vector lemma below instantiates.
  */
  lemma VectorHolds(t: U64, n: nat, g: seq<Quintet>, s: string)
    requires 1 <= n && t < Pow(256, n) && (n == 1 || Pow(256, n - 1) <= t)
    requires |g| == (8 * n + 4) / 5 && Val(g, 32) == t * Pow(2, PadLength(8 * n))
    requires Symbols(g) == s
    ensures Lexicoid(t).text == s
  {
    MinimalBytesExactly(t, n);
    LexicoidNumeral(t, g);
  }

  // Each row of the table in three steps: the numeral of t * 2^p in base 32,
  // the spelling of that numeral in the alphabet, and the identifier itself.

  lemma NumeralZero()
    ensures Val([0, 0], 32) == 0 * 4
  {
  }

  lemma SpellingZero()
    ensures Symbols([0, 0]) == "22"
  {
  }

  lemma LexicoidZero()
    ensures Lexicoid(0).text == "22"
  {
    NumeralZero();
    SpellingZero();
    VectorHolds(0, 1, [0, 0], "22");
  }

  lemma Numeral100()
    ensures Val([12, 16], 32) == 100 * 4
  {
  }

  lemma Spelling100()
    ensures Symbols([12, 16]) == "gk"
  {
  }

  lemma Lexicoid100()
    ensures Lexicoid(100).text == "gk"
  {
    Numeral100();
    Spelling100();
    VectorHolds(100, 1, [12, 16], "gk");
  }

  lemma Numeral10000()
    ensures Val([4, 28, 8, 0], 32) == 10000 * 16
  {
  }

  lemma Spelling10000()
    ensures Symbols([4, 28, 8, 0]) == "6wc2"
  {
  }

  lemma Lexicoid10000()
    ensures Lexicoid(10000).text == "6wc2"
  {
    Numeral10000();
    Spelling10000();
    VectorHolds(10000, 2, [4, 28, 8, 0], "6wc2");
  }

  lemma Numeral500000()
    ensures Val([0, 30, 16, 18, 0], 32) == 500000 * 2
  {
  }

  lemma Spelling500000()
    ensures Symbols([0, 30, 16, 18, 0]) == "2ykm2"
  {
  }

  lemma Lexicoid500000()
    ensures Lexicoid(500000).text == "2ykm2"
  {
    Numeral500000();
    Spelling500000();
    VectorHolds(500000, 3, [0, 30, 16, 18, 0], "2ykm2");
  }

  lemma Numeral1700000()
    ensures Val([3, 7, 24, 10, 0], 32) == 1700000 * 2
  {
  }

  lemma Spelling1700000()
    ensures Symbols([3, 7, 24, 10, 0]) == "5bse2"
  {
  }

  lemma Lexicoid1700000()
    ensures Lexicoid(1700000).text == "5bse2"
  {
    Numeral1700000();
    Spelling1700000();
    VectorHolds(1700000, 3, [3, 7, 24, 10, 0], "5bse2");
  }

  lemma Numeral28000000()
    ensures Val([0, 6, 21, 19, 30, 0, 0], 32) == 28000000 * 8
  {
  }

  lemma Spelling28000000()
    ensures Symbols([0, 6, 21, 19, 30, 0, 0]) == "2apny22"
  {
  }

  lemma Lexicoid28000000()
    ensures Lexicoid(28000000).text == "2apny22"
  {
    Numeral28000000();
    Spelling28000000();
    VectorHolds(28000000, 4, [0, 6, 21, 19, 30, 0, 0], "2apny22");
  }

  lemma Numeral550000000()
    ensures Val([4, 3, 4, 5, 11, 0, 0], 32) == 550000000 * 8
  {
  }

  lemma Spelling550000000()
    ensures Symbols([4, 3, 4, 5, 11, 0, 0]) == "6567f22"
  {
  }

  lemma Lexicoid550000000()
    ensures Lexicoid(550000000).text == "6567f22"
  {
    Numeral550000000();
    Spelling550000000();
    VectorHolds(550000000, 4, [4, 3, 4, 5, 11, 0, 0], "6567f22");
  }

  lemma Numeral1550000000()
    ensures Val([11, 17, 17, 17, 31, 0, 0], 32) == 1550000000 * 8
  {
  }

  lemma Spelling1550000000()
    ensures Symbols([11, 17, 17, 17, 31, 0, 0]) == "flllz22"
  {
  }

  lemma Lexicoid1550000000()
    ensures Lexicoid(1550000000).text == "flllz22"
  {
    Numeral1550000000();
    Spelling1550000000();
    VectorHolds(1550000000, 4, [11, 17, 17, 17, 31, 0, 0], "flllz22");
  }

  lemma Numeral1654301676()
    ensures Val([12, 10, 13, 10, 7, 27, 0], 32) == 1654301676 * 8
  {
  }

  lemma Spelling1654301676()
    ensures Symbols([12, 10, 13, 10, 7, 27, 0]) == "gehebv2"
  {
  }

  lemma Lexicoid1654301676()
    ensures Lexicoid(1654301676).text == "gehebv2"
  {
    Numeral1654301676();
    Spelling1654301676();
    VectorHolds(1654301676, 4, [12, 10, 13, 10, 7, 27, 0], "gehebv2");
  }

  lemma Numeral1654401676()
    ensures Val([12, 10, 14, 2, 21, 3, 0], 32) == 1654401676 * 8
  {
  }

  lemma Spelling1654401676()
    ensures Symbols([12, 10, 14, 2, 21, 3, 0]) == "gei4p52"
  {
  }

  lemma Lexicoid1654401676()
    ensures Lexicoid(1654401676).text == "gei4p52"
  {
    Numeral1654401676();
    Spelling1654401676();
    VectorHolds(1654401676, 4, [12, 10, 14, 2, 21, 3, 0], "gei4p52");
  }

  lemma Numeral1674301676()
    ensures Val([12, 15, 5, 29, 1, 27, 0], 32) == 1674301676 * 8
  {
  }

  lemma Spelling1674301676()
    ensures Symbols([12, 15, 5, 29, 1, 27, 0]) == "gj7x3v2"
  {
  }

  lemma Lexicoid1674301676()
    ensures Lexicoid(1674301676).text == "gj7x3v2"
  {
    Numeral1674301676();
    Spelling1674301676();
    VectorHolds(1674301676, 4, [12, 15, 5, 29, 1, 27, 0], "gj7x3v2");
  }

  lemma Numeral1674301677()
    ensures Val([12, 15, 5, 29, 1, 27, 8], 32) == 1674301677 * 8
  {
  }

  lemma Spelling1674301677()
    ensures Symbols([12, 15, 5, 29, 1, 27, 8]) == "gj7x3vc"
  {
  }

  lemma Lexicoid1674301677()
    ensures Lexicoid(1674301677).text == "gj7x3vc"
  {
    Numeral1674301677();
    Spelling1674301677();
    VectorHolds(1674301677, 4, [12, 15, 5, 29, 1, 27, 8], "gj7x3vc");
  }

  /** The table lists its timestamps in strictly ascending order. */
  lemma TimestampsAscending()
    ensures forall i, j :: 0 <= i < j < |Timestamps| ==> Timestamps[i] < Timestamps[j]
  {
  }

  /**
    The sort scenario: whatever sorted rearrangement of the table's identifiers
    `sort` returns, it lists them in timestamp order, so that position i holds
    the identifier of the i-th timestamp (whose text the lemmas above give).
  */
  lemma SortReproducesTimestampOrder(ids: seq<Id>)
    requires Sorted(ids) && multiset(ids) == multiset(LexicoidAll(Timestamps))
    ensures ids == LexicoidAll(Timestamps)
  {
    TimestampsAscending();
    SortRestoresTimestampOrder(Timestamps, ids);
  }

  /**
    The test's last check, with the clock reading as a parameter: the
    identifier of any later time sorts after the last of the sorted table.
  */
  lemma LaterTimestampSortsLast(now: U64, ids: seq<Id>)
    requires Sorted(ids) && multiset(ids) == multiset(LexicoidAll(Timestamps))
    requires now > Timestamps[|Timestamps| - 1]
    ensures |ids| == |Timestamps| && Cmp(Lexicoid(now), ids[|ids| - 1]) == Greater
  {
    SortReproducesTimestampOrder(ids);
    var last := Timestamps[|Timestamps| - 1];
    assert ids[|ids| - 1] == LexicoidAll(Timestamps)[|Timestamps| - 1] == Lexicoid(last);
    LexicoidOrder(now, last);
  }
}
