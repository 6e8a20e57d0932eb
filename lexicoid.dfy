/**
  Model of the lexicoid crate: a unix timestamp becomes a short identifier by
  taking the minimal big-endian bytes of the number and writing them in an
  unpadded Base32 (section 6 of RFC 4648) over the alphabet
  "234567abcdefghijklmnopqrstuvwxyz". Identifiers are ordered first by length,
  then lexicographically, and that order is the order of the timestamps.
*/
module LexicoidLib {
  import opened Digits

  /** The timestamp argument of `lexicoid`, a Rust `u64`. */
  type U64 = x: nat | x < 0x1_0000_0000_0000_0000

  type Byte = x: nat | x < 256

  type Bit = x: nat | x < 2

  /** A 5-bit group: the value one Base32 symbol stands for. */
  type Quintet = x: nat | x < 32

  /** The Base32 symbols; symbol k stands for the value k. */
  const Alphabet: string := "234567abcdefghijklmnopqrstuvwxyz"

  // ---------------------------------------------------------------------------
  // The alphabet
  // ---------------------------------------------------------------------------

  /** The alphabet has 32 symbols, each an ASCII character. */
  lemma AlphabetAscii()
    ensures |Alphabet| == 32
    ensures forall i :: 0 <= i < |Alphabet| ==> Alphabet[i] as int < 0x80
  {
  }

  /** The symbols are listed in strictly increasing character order. */
  lemma AlphabetIncreasing(i: nat, j: nat)
    requires i < j < |Alphabet|
    ensures Alphabet[i] < Alphabet[j]
  {
  }

  // ---------------------------------------------------------------------------
  // Minimal big-endian bytes (what `BigInt::to_bytes_be` yields)
  // ---------------------------------------------------------------------------

  /**
    The big-endian bytes of `t` without leading zero bytes; zero is the single
    byte 0, never the empty string.
  */
  function MinimalBytes(t: nat): (bs: seq<Byte>)
    ensures 1 <= |bs|
    ensures Val(bs, 256) == t
    ensures |bs| == 1 || bs[0] != 0
    decreases t
  {
    if t < 256 then [t]
    else
      var high := MinimalBytes(t / 256);
      ValAppend(high, [t % 256], 256);
      high + [t % 256]
  }

  /** The byte count is the least n >= 1 with t < 256^n. */
  lemma MinimalBytesCount(t: nat)
    ensures t < Pow(256, |MinimalBytes(t)|)
    ensures |MinimalBytes(t)| == 1 || Pow(256, |MinimalBytes(t)| - 1) <= t
  {
    var bs := MinimalBytes(t);
    ValBound(bs, 256);
    assert bs[0] * Pow(256, |bs| - 1) <= t;
  }

  /** A number in [256^(n-1), 256^n) takes exactly n bytes. */
  lemma MinimalBytesExactly(t: nat, n: nat)
    requires 1 <= n && t < Pow(256, n)
    requires n == 1 || Pow(256, n - 1) <= t
    ensures |MinimalBytes(t)| == n
  {
    MinimalBytesAtMost(t, n);
    MinimalBytesCount(t);
    var m := |MinimalBytes(t)|;
    if m < n {
      PowMonotone(256, m, n - 1);
    }
  }

  /** A number below 256^k takes at most k bytes. */
  lemma {:induction false} MinimalBytesAtMost(t: nat, k: nat)
    requires 1 <= k && t < Pow(256, k)
    ensures |MinimalBytes(t)| <= k
    decreases t
  {
    if t >= 256 {
      assert 2 <= k;
      assert t < 256 * Pow(256, k - 1);
      MinimalBytesAtMost(t / 256, k - 1);
    }
  }

  /** A larger number never takes fewer bytes. */
  lemma {:induction false} MinimalBytesMonotone(t1: nat, t2: nat)
    requires t1 <= t2
    ensures |MinimalBytes(t1)| <= |MinimalBytes(t2)|
    decreases t2
  {
    if t1 >= 256 {
      MinimalBytesMonotone(t1 / 256, t2 / 256);
    }
  }

  // ---------------------------------------------------------------------------
  // Unpadded Base32 over the custom alphabet
  // ---------------------------------------------------------------------------

  /** The `w` low bits of `x`, most significant first. */
  function BitsOf(x: nat, w: nat): (r: seq<Bit>)
    requires x < Pow(2, w)
    ensures |r| == w
    ensures Val(r, 2) == x
  {
    if w == 0 then []
    else
      var high := BitsOf(x / 2, w - 1);
      ValAppend(high, [x % 2], 2);
      high + [x % 2]
  }

  /** The input bytes as one bit string, eight bits per byte, most significant bit first. */
  function Bits(bs: seq<Byte>): (r: seq<Bit>)
    ensures |r| == 8 * |bs|
    ensures Val(r, 2) == Val(bs, 256)
  {
    if |bs| == 0 then []
    else
      var first := BitsOf(bs[0], 8);
      var rest := Bits(bs[1..]);
      ValAppend(first, rest, 2);
      PowMul(2, 8, |bs| - 1);
      first + rest
  }

  /** The number of zero bits that completes the last 5-bit group. */
  function PadLength(m: nat): (p: nat)
    ensures p < 5 && (m + p) % 5 == 0
  {
    (5 - m % 5) % 5
  }

  /** The bit string filled with zero bits on the right up to a multiple of five. */
  function PadBits(bits: seq<Bit>): (r: seq<Bit>)
    ensures |r| % 5 == 0 && |bits| <= |r| < |bits| + 5
    ensures r[..|bits|] == bits
    ensures forall i :: |bits| <= i < |r| ==> r[i] == 0
  {
    bits + seq(PadLength(|bits|), _ => 0)
  }

  /** The padded bit string cut into 5-bit groups, each read most significant bit first. */
  function Quintets(bits: seq<Bit>): (r: seq<Quintet>)
    requires |bits| % 5 == 0
    ensures 5 * |r| == |bits|
    ensures Val(r, 32) == Val(bits, 2)
    decreases |bits|
  {
    if |bits| == 0 then []
    else
      ValBound(bits[..5], 2);
      var first: Quintet := Val(bits[..5], 2);
      var rest := Quintets(bits[5..]);
      assert bits == bits[..5] + bits[5..];
      ValAppend(bits[..5], bits[5..], 2);
      ValAppend([first], rest, 32);
      PowMul(2, 5, |rest|);
      [first] + rest
  }

  /** Each 5-bit group written as the alphabet symbol for its value. */
  function Symbols(qs: seq<Quintet>): (s: string)
    ensures |s| == |qs|
    ensures forall i :: 0 <= i < |s| ==> s[i] in Alphabet
  {
    seq(|qs|, i requires 0 <= i < |qs| => Alphabet[qs[i]])
  }

  /** Unpadded Base32 of a byte string over the custom alphabet. */
  function Base32(bs: seq<Byte>): (s: string)
    ensures |s| == (8 * |bs| + 4) / 5
    ensures forall i :: 0 <= i < |s| ==> s[i] in Alphabet
  {
    Symbols(Quintets(PadBits(Bits(bs))))
  }

  /** Padding shifts the number the bits denote left by the padding length. */
  lemma PadBitsValue(bits: seq<Bit>)
    ensures Val(PadBits(bits), 2) == Val(bits, 2) * Pow(2, PadLength(|bits|))
  {
    var zeros: seq<Bit> := seq(PadLength(|bits|), _ => 0);
    assert PadBits(bits) == bits + zeros;
    ValAppend(bits, zeros, 2);
    ValZeros(zeros, 2);
  }

  /**
    Read as base-32 digits, the groups behind `Base32(bs)` denote the number
    `bs` denotes, shifted left by the padding bits.
  */
  lemma Base32Value(bs: seq<Byte>)
    ensures Val(Quintets(PadBits(Bits(bs))), 32) == Val(bs, 256) * Pow(2, PadLength(8 * |bs|))
  {
    PadBitsValue(Bits(bs));
  }

  // ---------------------------------------------------------------------------
  // The identifier and its ordering
  // ---------------------------------------------------------------------------

  /** The identifier: a wrapper around the encoded string. */
  datatype Id = Id(text: string)

  /** `std::cmp::Ordering`, the answer of a three-way comparison. */
  datatype Ordering = Less | Equal | Greater

  /**
    The answer of comparing the other way round; used only to state that the
    comparisons below are antisymmetric (CmpStrReverse, CmpReverse).
  */
  function Reverse(o: Ordering): Ordering
  {
    match o
    case Less => Greater
    case Equal => Equal
    case Greater => Less
  }

  /** `cmp` on unsigned integers: `usize` lengths and `u64` timestamps. */
  function CmpNat(a: nat, b: nat): (r: Ordering)
    ensures r == Less <==> a < b
    ensures r == Equal <==> a == b
  {
    if a < b then Less else if a == b then Equal else Greater
  }

  /** Number of bytes the UTF-8 encoding of `c` takes. */
  function Utf8Width(c: char): nat
  {
    if c as int < 0x80 then 1
    else if c as int < 0x800 then 2
    else if c as int < 0x1_0000 then 3
    else 4
  }

  /** `String::len`: the length in UTF-8 bytes. */
  function Utf8Len(s: string): (n: nat)
    ensures |s| <= n <= 4 * |s|
  {
    if |s| == 0 then 0 else Utf8Width(s[0]) + Utf8Len(s[1..])
  }

  /** For a string of ASCII characters the byte length is the character count. */
  lemma {:induction false} AsciiUtf8Len(s: string)
    requires forall i :: 0 <= i < |s| ==> s[i] as int < 0x80
    ensures Utf8Len(s) == |s|
  {
    if |s| > 0 {
      AsciiUtf8Len(s[1..]);
    }
  }

  /**
    `String::cmp`: lexicographic comparison, a proper prefix first. Comparing
    the characters by code point orders strings as their UTF-8 bytes do.
  */
  function CmpStr(a: string, b: string): Ordering
  {
    if |a| == 0 then (if |b| == 0 then Equal else Less)
    else if |b| == 0 then Greater
    else if a[0] < b[0] then Less
    else if b[0] < a[0] then Greater
    else CmpStr(a[1..], b[1..])
  }

  /**
    Lexicographic order stated directly: after a common prefix of length k,
    either `a` ends or its next character is the smaller one.
  */
  ghost predicate LexLess(a: string, b: string)
  {
    exists k :: 0 <= k <= |a| && k < |b| && a[..k] == b[..k] && (k == |a| || a[k] < b[k])
  }

  lemma {:induction false} CmpStrEqual(a: string, b: string)
    ensures CmpStr(a, b) == Equal <==> a == b
  {
    if |a| > 0 && |b| > 0 && a[0] == b[0] {
      CmpStrEqual(a[1..], b[1..]);
      assert a == [a[0]] + a[1..] && b == [b[0]] + b[1..];
    }
  }

  lemma {:induction false} CmpStrReverse(a: string, b: string)
    ensures CmpStr(b, a) == Reverse(CmpStr(a, b))
  {
    if |a| > 0 && |b| > 0 && a[0] == b[0] {
      CmpStrReverse(a[1..], b[1..]);
    }
  }

  lemma {:induction false} CmpStrTransitive(a: string, b: string, c: string)
    requires CmpStr(a, b) == Less && CmpStr(b, c) == Less
    ensures CmpStr(a, c) == Less
  {
    if |a| > 0 && a[0] == b[0] && b[0] == c[0] {
      CmpStrTransitive(a[1..], b[1..], c[1..]);
    }
  }

  /** `CmpStr` answers Less exactly when `a` precedes `b` lexicographically. */
  lemma {:induction false} CmpStrLess(a: string, b: string)
    ensures CmpStr(a, b) == Less <==> LexLess(a, b)
  {
    if |a| > 0 && |b| > 0 && a[0] == b[0] {
      CmpStrLess(a[1..], b[1..]);
      if LexLess(a[1..], b[1..]) {
        var k :| 0 <= k <= |a[1..]| && k < |b[1..]| && a[1..][..k] == b[1..][..k]
          && (k == |a[1..]| || a[1..][k] < b[1..][k]);
        assert a[..k + 1] == [a[0]] + a[1..][..k];
        assert b[..k + 1] == [b[0]] + b[1..][..k];
      }
      if LexLess(a, b) {
        var k :| 0 <= k <= |a| && k < |b| && a[..k] == b[..k] && (k == |a| || a[k] < b[k]);
        assert k > 0;
        assert a[1..][..k - 1] == a[..k][1..];
        assert b[1..][..k - 1] == b[..k][1..];
      }
    } else if |b| > 0 {
      assert a[..0] == b[..0];
    }
  }

  /**
    `Ord::cmp` for `Id`: equal lengths compare the strings, otherwise the
    lengths decide. It answers Equal exactly for equal identifiers.
  */
  function Cmp(a: Id, b: Id): (r: Ordering)
    ensures r == Equal <==> a == b
  {
    if Utf8Len(a.text) == Utf8Len(b.text) then
      CmpStrEqual(a.text, b.text);
      CmpStr(a.text, b.text)
    else
      CmpNat(Utf8Len(a.text), Utf8Len(b.text))
  }

  /** The order the documentation promises: shorter first, then lexicographic. */
  ghost predicate Precedes(a: Id, b: Id)
  {
    Utf8Len(a.text) < Utf8Len(b.text)
    || (Utf8Len(a.text) == Utf8Len(b.text) && LexLess(a.text, b.text))
  }

  lemma CmpLess(a: Id, b: Id)
    ensures Cmp(a, b) == Less <==> Precedes(a, b)
  {
    CmpStrLess(a.text, b.text);
  }

  lemma CmpReverse(a: Id, b: Id)
    ensures Cmp(b, a) == Reverse(Cmp(a, b))
  {
    CmpStrReverse(a.text, b.text);
  }

  lemma CmpTransitive(a: Id, b: Id, c: Id)
    requires Cmp(a, b) == Less && Cmp(b, c) == Less
    ensures Cmp(a, c) == Less
  {
    if Utf8Len(a.text) == Utf8Len(b.text) == Utf8Len(c.text) {
      CmpStrTransitive(a.text, b.text, c.text);
    }
  }

  // ---------------------------------------------------------------------------
  // lexicoid(timestamp)
  // ---------------------------------------------------------------------------

  /**
    `lexicoid`: the unpadded Base32 of the minimal big-endian bytes. A `u64`
    takes one to eight bytes, so the text has 2 to 13 symbols.
  */
  function Lexicoid(timestamp: U64): (id: Id)
    ensures 1 <= |MinimalBytes(timestamp)| <= 8
    ensures |id.text| == (8 * |MinimalBytes(timestamp)| + 4) / 5
    ensures 2 <= |id.text| <= 13
    ensures forall i :: 0 <= i < |id.text| ==> id.text[i] in Alphabet
  {
    MinimalBytesAtMost(timestamp, 8);
    Id(Base32(MinimalBytes(timestamp)))
  }

  /** The first symbols decide the comparison of two spellings, unless they agree. */
  lemma SymbolsHead(g1: seq<Quintet>, g2: seq<Quintet>)
    requires |g1| == |g2| > 0
    ensures CmpStr(Symbols(g1), Symbols(g2)) ==
      if g1[0] < g2[0] then Less
      else if g2[0] < g1[0] then Greater
      else CmpStr(Symbols(g1[1..]), Symbols(g2[1..]))
  {
    var s1, s2 := Symbols(g1), Symbols(g2);
    assert s1[1..] == Symbols(g1[1..]) && s2[1..] == Symbols(g2[1..]);
    if g1[0] < g2[0] {
      AlphabetIncreasing(g1[0], g2[0]);
    } else if g2[0] < g1[0] {
      AlphabetIncreasing(g2[0], g1[0]);
    }
  }

  /** The leading digits decide the comparison of two numerals, unless they agree. */
  lemma ValHead(g1: seq<Quintet>, g2: seq<Quintet>)
    requires |g1| == |g2| > 0
    ensures CmpNat(Val(g1, 32), Val(g2, 32)) ==
      if g1[0] < g2[0] then Less
      else if g2[0] < g1[0] then Greater
      else CmpNat(Val(g1[1..], 32), Val(g2[1..], 32))
  {
    if g1[0] < g2[0] {
      LeadingDigitOrder(g1, g2, 32);
    } else if g2[0] < g1[0] {
      LeadingDigitOrder(g2, g1, 32);
    }
  }

  /**
    With equally many groups, comparing the symbol strings is comparing the
    numbers the groups denote in base 32.
  */
  lemma {:induction false} SymbolsOrder(g1: seq<Quintet>, g2: seq<Quintet>)
    requires |g1| == |g2|
    ensures CmpStr(Symbols(g1), Symbols(g2)) == CmpNat(Val(g1, 32), Val(g2, 32))
  {
    if |g1| > 0 {
      SymbolsHead(g1, g2);
      ValHead(g1, g2);
      SymbolsOrder(g1[1..], g2[1..]);
    }
  }

  /** Scaling both sides by the same positive factor keeps their order. */
  lemma ScaleOrder(x: nat, y: nat, p: nat)
    requires p > 0
    ensures CmpNat(x * p, y * p) == CmpNat(x, y)
  {
    if x < y {
      assert x * p < y * p;
    } else if y < x {
      assert y * p < x * p;
    }
  }

  /**
    Between byte strings of the same length, Base32 keeps the order of the
    numbers they denote.
  */
  lemma Base32Order(b1: seq<Byte>, b2: seq<Byte>)
    requires |b1| == |b2|
    ensures CmpStr(Base32(b1), Base32(b2)) == CmpNat(Val(b1, 256), Val(b2, 256))
  {
    var g1, g2 := Quintets(PadBits(Bits(b1))), Quintets(PadBits(Bits(b2)));
    Base32Value(b1);
    Base32Value(b2);
    SymbolsOrder(g1, g2);
    ScaleOrder(Val(b1, 256), Val(b2, 256), Pow(2, PadLength(8 * |b1|)));
  }

  /**
    The identifier is the base-32 numeral, in the alphabet, of the timestamp
    shifted left by the padding bits, written with (8n + 4) / 5 digits where
    n is the byte count.
  */
  lemma LexicoidNumeral(t: U64, g: seq<Quintet>)
    requires |g| == (8 * |MinimalBytes(t)| + 4) / 5
    requires Val(g, 32) == t * Pow(2, PadLength(8 * |MinimalBytes(t)|))
    ensures Lexicoid(t).text == Symbols(g)
  {
    var bs := MinimalBytes(t);
    var digits := Quintets(PadBits(Bits(bs)));
    Base32Value(bs);
    SymbolsOrder(digits, g);
    CmpStrEqual(Symbols(digits), Symbols(g));
  }

  /** The UTF-8 length of an identifier is its symbol count. */
  lemma LexicoidUtf8Len(t: U64)
    ensures Utf8Len(Lexicoid(t).text) == |Lexicoid(t).text|
  {
    AlphabetAscii();
    AsciiUtf8Len(Lexicoid(t).text);
  }

  /** A later timestamp gives an identifier that sorts strictly after. */
  lemma LexicoidMonotone(t1: U64, t2: U64)
    requires t1 < t2
    ensures Cmp(Lexicoid(t1), Lexicoid(t2)) == Less
  {
    LexicoidUtf8Len(t1);
    LexicoidUtf8Len(t2);
    MinimalBytesMonotone(t1, t2);
    if |MinimalBytes(t1)| == |MinimalBytes(t2)| {
      Base32Order(MinimalBytes(t1), MinimalBytes(t2));
    }
  }

  /**
    The headline property: comparing identifiers gives exactly what comparing
    their timestamps gives. In particular `lexicoid` is injective.
  */
  lemma LexicoidOrder(t1: U64, t2: U64)
    ensures Cmp(Lexicoid(t1), Lexicoid(t2)) == CmpNat(t1, t2)
  {
    if t1 < t2 {
      LexicoidMonotone(t1, t2);
    } else if t2 < t1 {
      LexicoidMonotone(t2, t1);
      CmpReverse(Lexicoid(t2), Lexicoid(t1));
    }
  }

  /** Distinct timestamps never share an identifier. */
  lemma LexicoidInjective(t1: U64, t2: U64)
    requires Lexicoid(t1) == Lexicoid(t2)
    ensures t1 == t2
  {
    LexicoidOrder(t1, t2);
  }

  // ---------------------------------------------------------------------------
  // Sorting identifiers
  // ---------------------------------------------------------------------------

  /** `ids.sort()` leaves the identifiers in this state: no pair out of order. */
  ghost predicate Sorted(ids: seq<Id>)
  {
    forall i, j :: 0 <= i < j < |ids| ==> Cmp(ids[i], ids[j]) != Greater
  }

  ghost predicate StrictlySorted(ids: seq<Id>)
  {
    forall i, j :: 0 <= i < j < |ids| ==> Cmp(ids[i], ids[j]) == Less
  }

  /** `timestamps.map(lexicoid)`. */
  function LexicoidAll(timestamps: seq<U64>): seq<Id>
  {
    seq(|timestamps|, i requires 0 <= i < |timestamps| => Lexicoid(timestamps[i]))
  }

  /** A later timestamp never gives a shorter identifier. */
  lemma LexicoidLengthMonotone(t1: U64, t2: U64)
    requires t1 <= t2
    ensures |Lexicoid(t1).text| <= |Lexicoid(t2).text|
  {
    MinimalBytesMonotone(t1, t2);
  }

  /** Identifiers of strictly ascending timestamps come out strictly sorted. */
  lemma AscendingTimestampsSorted(timestamps: seq<U64>)
    requires forall i, j :: 0 <= i < j < |timestamps| ==> timestamps[i] < timestamps[j]
    ensures StrictlySorted(LexicoidAll(timestamps))
  {
    forall i, j | 0 <= i < j < |timestamps|
      ensures Cmp(Lexicoid(timestamps[i]), Lexicoid(timestamps[j])) == Less
    {
      LexicoidMonotone(timestamps[i], timestamps[j]);
    }
  }

  /** Of two sorted rearrangements of one another, the strict one starts with the other's head. */
  lemma SortedHeads(xs: seq<Id>, ys: seq<Id>)
    requires StrictlySorted(xs) && Sorted(ys)
    requires multiset(xs) == multiset(ys) && |xs| > 0
    ensures |ys| > 0 && ys[0] == xs[0]
  {
    assert xs[0] in multiset(ys) && |ys| > 0;
    assert ys[0] in multiset(xs);
    var k :| 0 <= k < |xs| && xs[k] == ys[0];
    var m :| 0 <= m < |ys| && ys[m] == xs[0];
    assert Cmp(xs[0], ys[0]) != Greater;
    assert Cmp(ys[0], xs[0]) != Greater;
    CmpReverse(xs[0], ys[0]);
  }

  lemma MultisetTails(xs: seq<Id>, ys: seq<Id>)
    requires multiset(xs) == multiset(ys) && |xs| > 0 && |ys| > 0 && xs[0] == ys[0]
    ensures multiset(xs[1..]) == multiset(ys[1..])
  {
    assert xs == [xs[0]] + xs[1..] && ys == [ys[0]] + ys[1..];
    assert multiset(xs[1..]) == multiset(xs) - multiset{xs[0]};
    assert multiset(ys[1..]) == multiset(ys) - multiset{ys[0]};
  }

  /**
    A sorted rearrangement of a strictly sorted sequence is that sequence:
    sorting identifiers that are already in order changes nothing.
  */
  lemma {:induction false} SortedPermutationUnique(xs: seq<Id>, ys: seq<Id>)
    requires StrictlySorted(xs) && Sorted(ys)
    requires multiset(xs) == multiset(ys)
    ensures ys == xs
  {
    if |xs| == 0 {
      assert |ys| == |multiset(ys)| == 0;
    } else {
      SortedHeads(xs, ys);
      MultisetTails(xs, ys);
      SortedPermutationUnique(xs[1..], ys[1..]);
      assert xs == [xs[0]] + xs[1..] && ys == [ys[0]] + ys[1..];
    }
  }

  /**
    Sorting the identifiers of strictly ascending timestamps gives them back
    in timestamp order: position i holds the identifier of the i-th timestamp.
  */
  lemma SortRestoresTimestampOrder(timestamps: seq<U64>, ids: seq<Id>)
    requires forall i, j :: 0 <= i < j < |timestamps| ==> timestamps[i] < timestamps[j]
    requires Sorted(ids) && multiset(ids) == multiset(LexicoidAll(timestamps))
    ensures ids == LexicoidAll(timestamps)
  {
    AscendingTimestampsSorted(timestamps);
    SortedPermutationUnique(LexicoidAll(timestamps), ids);
  }
}
