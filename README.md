# lexicoid in Dafny

A model of the Rust crate lexicoid, which turns a unix timestamp (`u64`) into
a short identifier that sorts like the timestamp. `lexicoid(t)` takes the
minimal big-endian bytes of `t`, where zero is the single byte `0`. It writes
them in Base32 as in section 6 of RFC 4648, with two differences: the symbols
are `234567abcdefghijklmnopqrstuvwxyz`, symbol k standing for value k, and no
padding is appended. The last 5-bit group is filled with zero bits on the
right. The result is wrapped in `Id`, whose `Ord` compares lengths first and
strings second.

The model is pure, like the crate: functions for each stage of the encoding
and lemmas about them.

- `digits.dfy`, module `Digits`: big-endian positional value `Val(ds, b)` and
  powers, with the lemmas the encoder proofs use (concatenation, bounds, a
  smaller leading digit gives a smaller number).
- `lexicoid.dfy`, module `LexicoidLib`: the alphabet. The encoder as
  `MinimalBytes`, `Bits`, `PadBits`, `Quintets`, `Symbols`, `Base32` and
  `Lexicoid`. `Id` and its comparison `Cmp`, built on `String::len` (UTF-8
  length) and `String::cmp`. Then the order theorems and sorting.
- `vectors.dfy`, module `LexicoidVectors`: the table of the crate's test and
  its sort scenario.

The main result is `LexicoidOrder`: for all `u64` values `t1` and `t2`,
`Cmp(Lexicoid(t1), Lexicoid(t2)) == CmpNat(t1, t2)`. So identifiers sort exactly
as their timestamps do, and `lexicoid` is injective. The proof rests on three
facts. Byte counts are monotone in the timestamp. The output length
`(8n + 4) / 5` is strictly increasing in the byte count `n`. With equal byte
counts, the 5-bit groups are the base-32 digits of `t * 2^p` (`p` padding bits),
and the alphabet is strictly increasing, so string order is numeric order.

Rust's `String::cmp` compares UTF-8 bytes. The model compares characters by
code point, which orders strings the same way. `Id::len()` is the UTF-8 byte
length, modelled by `Utf8Len`. For identifiers, which are ASCII, it equals the
symbol count (`LexicoidUtf8Len`).

## Model

| member | source | states |
|---|---|---|
| LexicoidLib.Alphabet | src/lib.rs:33 | the 32 symbols of the encoding, in the order of the values 0 to 31 they stand for |
| LexicoidLib.AlphabetAscii | src/lib.rs:33 | the alphabet has 32 symbols, all ASCII |
| LexicoidLib.AlphabetIncreasing | src/lib.rs:33 | symbol i is below symbol j in character code whenever i < j |
| LexicoidLib.MinimalBytes | src/lib.rs:82-83 | the big-endian bytes denote `t`, there is at least one, and the first is non-zero unless it is the only one (zero gives `[0]`) |
| LexicoidLib.MinimalBytesCount | src/lib.rs:82-83 | the byte count n is minimal: `t < 256^n` and, if n > 1, `256^(n-1) <= t` |
| LexicoidLib.MinimalBytesExactly | src/lib.rs:82-83 | a value in `[256^(n-1), 256^n)` takes exactly n bytes |
| LexicoidLib.MinimalBytesAtMost | src/lib.rs:82-83 | a value below `256^k` takes at most k bytes (a `u64` at most 8) |
| LexicoidLib.MinimalBytesMonotone | src/lib.rs:82-83 | a larger value never takes fewer bytes |
| LexicoidLib.BitsOf | src/lib.rs:83 | w bits, most significant first, that denote `x` |
| LexicoidLib.Bits | src/lib.rs:83 | 8 bits per input byte, most significant bit first, denoting the same number as the bytes |
| LexicoidLib.PadLength | src/lib.rs:83 | the padding is fewer than 5 bits and completes a multiple of 5 |
| LexicoidLib.PadBits | src/lib.rs:83 | the bits unchanged, followed by zero bits up to the next multiple of 5 |
| LexicoidLib.PadBitsValue | src/lib.rs:83 | padding with p zero bits multiplies the value by `2^p` |
| LexicoidLib.Quintets | src/lib.rs:83 | one 5-bit group per five bits; read in base 32 the groups denote what the bits denote in base 2 |
| LexicoidLib.Symbols | src/lib.rs:83 | one symbol per group, every symbol in the alphabet |
| LexicoidLib.Base32 | src/lib.rs:83 | unpadded output of length ceil(8n/5) = `(8n + 4) / 5` for n bytes, all symbols from the alphabet |
| LexicoidLib.Base32Value | src/lib.rs:83 | the output's groups are the base-32 digits of the input's value times `2^p` |
| LexicoidLib.Base32Order | src/lib.rs:83 | for byte strings of equal length, comparing the Base32 texts gives the comparison of their values |
| LexicoidLib.SymbolsHead | src/lib.rs:83 | for equally many groups, the first symbols decide the comparison of the spellings when they differ, and the rest decides it otherwise |
| LexicoidLib.ValHead | src/lib.rs:83 | for equally many base-32 digits, the leading digits decide the comparison of the numbers when they differ, and the rest decides it otherwise |
| LexicoidLib.SymbolsOrder | src/lib.rs:83 | for equally many groups, comparing the symbol strings gives the comparison of the base-32 values |
| LexicoidLib.Lexicoid | src/lib.rs:81-84 | one to eight bytes; text length `(8n + 4) / 5`, so 2 to 13 symbols, never empty; every symbol in the alphabet |
| LexicoidLib.LexicoidNumeral | src/lib.rs:81-84 | the text is the spelling of the `(8n + 4) / 5`-digit base-32 numeral of `t * 2^p` |
| LexicoidLib.Id | src/lib.rs:48-49 | the identifier: a wrapper around one string, compared for equality by its text |
| LexicoidLib.Ordering | src/lib.rs:60 | `std::cmp::Ordering`: Less, Equal, Greater |
| LexicoidLib.CmpNat | src/lib.rs:64 | the three-way comparison of two naturals, used for `usize` lengths and for `u64` timestamps: Less exactly when the first is smaller, Equal exactly when they are equal |
| LexicoidLib.Utf8Len | src/lib.rs:61 | `String::len`, the UTF-8 byte length: each character takes one to four bytes, so the length lies between the character count and four times it |
| LexicoidLib.AsciiUtf8Len | src/lib.rs:61 | an ASCII string's UTF-8 length is its character count |
| LexicoidLib.LexicoidUtf8Len | src/lib.rs:61 | an identifier's `len()` is its number of symbols |
| LexicoidLib.CmpStr | src/lib.rs:62 | `String::cmp`, lexicographic with a proper prefix first; it compares characters by code point where Rust compares UTF-8 bytes, which gives the same order. Its meaning is stated by the four CmpStr lemmas below |
| LexicoidLib.CmpStrEqual | src/lib.rs:62 | string comparison answers Equal exactly for equal strings |
| LexicoidLib.CmpStrReverse | src/lib.rs:62 | comparing the other way round reverses the answer |
| LexicoidLib.CmpStrTransitive | src/lib.rs:62 | string Less is transitive |
| LexicoidLib.CmpStrLess | src/lib.rs:62 | string comparison answers Less exactly when the first string is lexicographically smaller: a proper prefix, or smaller at the first difference |
| LexicoidLib.Cmp | src/lib.rs:59-66 | `Id` comparison answers Equal exactly when the identifiers are equal |
| LexicoidLib.CmpLess | src/lib.rs:42-44 | `Id` comparison answers Less exactly when the first is shorter, or equally long and lexicographically smaller |
| LexicoidLib.CmpReverse | src/lib.rs:59-72 | the comparison is antisymmetric: swapping the arguments reverses the answer |
| LexicoidLib.CmpTransitive | src/lib.rs:59-72 | the comparison is transitive |
| LexicoidLib.LexicoidMonotone | src/lib.rs:38-45 | the identifier of an earlier timestamp compares Less than that of a later one |
| LexicoidLib.LexicoidOrder | src/lib.rs:38-45 | comparing two identifiers gives exactly the comparison of their timestamps |
| LexicoidLib.LexicoidInjective | src/lib.rs:38-45 | equal identifiers come from equal timestamps |
| LexicoidLib.LexicoidLengthMonotone | src/lib.rs:81-84 | a later timestamp never gives a shorter identifier |
| LexicoidLib.LexicoidAll | src/lib.rs:114 | the identifiers of the timestamps, position by position, as `map(lexicoid)` collects them |
| LexicoidLib.Sorted | src/lib.rs:115 | the state `ids.sort()` leaves: no identifier compares Greater than one after it |
| LexicoidLib.AscendingTimestampsSorted | src/lib.rs:114-115 | the identifiers of strictly ascending timestamps are strictly sorted |
| LexicoidLib.SortedHeads | src/lib.rs:115 | a sorted rearrangement of a strictly sorted sequence starts with the same identifier |
| LexicoidLib.SortedPermutationUnique | src/lib.rs:115 | a sorted rearrangement of a strictly sorted sequence is that sequence |
| LexicoidLib.SortRestoresTimestampOrder | src/lib.rs:114-118 | sorting the identifiers of ascending timestamps puts the identifier of the i-th timestamp at position i |
| LexicoidVectors.LexicoidZero | src/lib.rs:100 | `lexicoid(0)` is `"22"` |
| LexicoidVectors.Lexicoid100 | src/lib.rs:101 | `lexicoid(100)` is `"gk"` |
| LexicoidVectors.Lexicoid10000 | src/lib.rs:102 | `lexicoid(10000)` is `"6wc2"` |
| LexicoidVectors.Lexicoid500000 | src/lib.rs:103 | `lexicoid(500000)` is `"2ykm2"` |
| LexicoidVectors.Lexicoid1700000 | src/lib.rs:104 | `lexicoid(1700000)` is `"5bse2"` |
| LexicoidVectors.Lexicoid28000000 | src/lib.rs:105 | `lexicoid(28000000)` is `"2apny22"` |
| LexicoidVectors.Lexicoid550000000 | src/lib.rs:106 | `lexicoid(550000000)` is `"6567f22"` |
| LexicoidVectors.Lexicoid1550000000 | src/lib.rs:107 | `lexicoid(1550000000)` is `"flllz22"` |
| LexicoidVectors.Lexicoid1654301676 | src/lib.rs:108 | `lexicoid(1654301676)` is `"gehebv2"` |
| LexicoidVectors.Lexicoid1654401676 | src/lib.rs:109 | `lexicoid(1654401676)` is `"gei4p52"` |
| LexicoidVectors.Lexicoid1674301676 | src/lib.rs:110 | `lexicoid(1674301676)` is `"gj7x3v2"` |
| LexicoidVectors.Lexicoid1674301677 | src/lib.rs:111 | `lexicoid(1674301677)` is `"gj7x3vc"` |
| LexicoidVectors.SortReproducesTimestampOrder | src/lib.rs:114-119 | any sorted rearrangement of the test table's identifiers equals the identifiers in table order |
| LexicoidVectors.LaterTimestampSortsLast | src/lib.rs:121-126 | with the clock reading as a parameter, an identifier of a later time compares Greater than the last sorted identifier |

## Left out

- `lexicoid_now` (src/lib.rs:87-91) reads the system clock and unwraps the error of a clock before 1970. It is I/O with no logic of its own. The clock reading is a parameter of `LaterTimestampSortsLast` instead.
- The `lazy_static!` global and the `data_encoding::Specification` builder (src/lib.rs:30-36) are library setup. The alphabet is the constant `Alphabet`, and the encoder is written out stage by stage rather than modelled through the `data_encoding` crate.
- `BigInt` (src/lib.rs:82) is an arbitrary-precision library. `MinimalBytes` computes the same minimal big-endian bytes directly; the sign part of `to_bytes_be` is dropped, as the crate drops it.
- `Deref` and `Display` (src/lib.rs:51-57, 74-78) pass the inner `String` through and are not modelled. `Id.text` plays their role.
- `partial_cmp` (src/lib.rs:68-72) returns `Some(cmp)` and adds nothing to `Cmp`. The derived `Debug`, `Clone` and `PartialEq` are Dafny's own datatype equality and copying.
- `String::cmp` works on UTF-8 bytes and `CmpStr` on characters. The two orders agree, but the model does not prove that byte-level fact.
- Decoding is not part of the crate, so no round trip is claimed.
- LexicoidVectors.SortReproducesTimestampOrder: states that the sorted identifiers are those of the table in order. Their expected texts, checked at src/lib.rs:117, come from the twelve `LexicoidVectors.Lexicoid…` lemmas, not from this lemma's own contract.
