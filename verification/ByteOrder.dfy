/** Unsigned integers of the C code, the memory image of an integer on a little-endian host,
    and the byte-order macros of src/message.h. */
module ByteOrder {
  type byte = x: int | 0 <= x < 0x100
  type u16 = x: int | 0 <= x < 0x1_0000
  type u32 = x: int | 0 <= x < 0x1_0000_0000
  type u64 = x: int | 0 <= x < 0x1_0000_0000_0000_0000

  const TWO_16 := 0x1_0000
  const TWO_32 := 0x1_0000_0000
  const TWO_64 := 0x1_0000_0000_0000_0000

  /** What `return -1` means in a function whose result is a uint64_t. */
  const MINUS_ONE_U64: u64 := 0xFFFF_FFFF_FFFF_FFFF

  // ----- division helpers -----

  lemma ProductAtLeast(d: int, k: int)
    requires d > 0 && k >= 1
    ensures d * k >= d
  {
    assert d * k == d * (k - 1) + d;
  }

  lemma DivModUnique(x: int, d: int, q: int, r: int)
    requires d > 0 && x == d * q + r && 0 <= r < d
    ensures x / d == q && x % d == r
  {
    var q', r' := x / d, x % d;
    assert d * q' + r' == d * q + r;
    if q > q' {
      assert d * (q - q') == r' - r;
      ProductAtLeast(d, q - q');
    } else if q < q' {
      assert d * (q' - q) == r - r';
      ProductAtLeast(d, q' - q);
    }
  }

  lemma DivDiv(v: nat, p: nat)
    requires p > 0
    ensures (v / 256) / p == v / (256 * p)
  {
    var q := (v / 256) / p;
    assert v / 256 == p * q + (v / 256) % p;
    DivModUnique(v, 256 * p, q, 256 * ((v / 256) % p) + v % 256);
  }

  // ----- memory images -----

  function Pow256(n: nat): (p: nat)
    ensures p >= 1
  {
    if n == 0 then 1 else 256 * Pow256(n - 1)
  }

  lemma Pow256Values()
    ensures Pow256(1) == 0x100 && Pow256(2) == TWO_16 && Pow256(4) == TWO_32 && Pow256(8) == TWO_64
  {
    assert Pow256(3) == 256 * Pow256(2);
    assert Pow256(4) == 256 * Pow256(3);
    assert Pow256(5) == 256 * Pow256(4);
    assert Pow256(6) == 256 * Pow256(5);
    assert Pow256(7) == 256 * Pow256(6);
  }

  /** The n bytes that a little-endian host writes when it stores v. */
  function StoreLE(v: nat, n: nat): (m: seq<byte>)
    ensures |m| == n
  {
    if n == 0 then [] else [v % 256] + StoreLE(v / 256, n - 1)
  }

  /** What a little-endian host reads back from memory. */
  function LoadLE(m: seq<byte>): (v: nat)
    ensures v < Pow256(|m|)
  {
    if m == [] then 0 else m[0] + 256 * LoadLE(m[1..])
  }

  /** The n bytes of v in network (big-endian) order, most significant first. */
  function StoreBE(v: nat, n: nat): (m: seq<byte>)
    ensures |m| == n
  {
    if n == 0 then [] else StoreBE(v / 256, n - 1) + [v % 256]
  }

  function LoadBE(m: seq<byte>): (v: nat)
    ensures v < Pow256(|m|)
  {
    if m == [] then 0 else 256 * LoadBE(m[..|m| - 1]) + m[|m| - 1]
  }

  function Reversed<T>(s: seq<T>): (r: seq<T>)
    ensures |r| == |s|
  {
    if s == [] then [] else Reversed(s[1..]) + [s[0]]
  }

  lemma {:induction false} LoadStoreLE(v: nat, n: nat)
    requires v < Pow256(n)
    ensures LoadLE(StoreLE(v, n)) == v
  {
    if n > 0 {
      LoadStoreLE(v / 256, n - 1);
      assert StoreLE(v, n)[1..] == StoreLE(v / 256, n - 1);
    }
  }

  lemma {:induction false} StoreLoadLE(m: seq<byte>)
    ensures StoreLE(LoadLE(m), |m|) == m
  {
    if m != [] {
      StoreLoadLE(m[1..]);
      assert LoadLE(m) % 256 == m[0] && LoadLE(m) / 256 == LoadLE(m[1..]);
    }
  }

  lemma {:induction false} LoadStoreBE(v: nat, n: nat)
    requires v < Pow256(n)
    ensures LoadBE(StoreBE(v, n)) == v
  {
    if n > 0 {
      LoadStoreBE(v / 256, n - 1);
      assert StoreBE(v, n)[..n - 1] == StoreBE(v / 256, n - 1);
    }
  }

  lemma {:induction false} StoreLoadBE(m: seq<byte>)
    ensures StoreBE(LoadBE(m), |m|) == m
  {
    if m != [] {
      StoreLoadBE(m[..|m| - 1]);
      assert LoadBE(m) % 256 == m[|m| - 1] && LoadBE(m) / 256 == LoadBE(m[..|m| - 1]);
    }
  }

  /** Network order and little-endian order are mirror images. */
  lemma {:induction false} BigEndianIsReversedLE(v: nat, n: nat)
    ensures StoreBE(v, n) == Reversed(StoreLE(v, n))
  {
    if n > 0 {
      BigEndianIsReversedLE(v / 256, n - 1);
      assert StoreLE(v, n)[1..] == StoreLE(v / 256, n - 1);
    }
  }

  /** The k-th byte in network order is the k-th base-256 digit from the top. */
  lemma {:induction false} BigEndianDigit(v: nat, n: nat, k: nat)
    requires k < n
    ensures StoreBE(v, n)[k] == (v / Pow256(n - 1 - k)) % 256
  {
    if k < n - 1 {
      BigEndianDigit(v / 256, n - 1, k);
      DivDiv(v, Pow256(n - 2 - k));
    }
  }

  // ----- htons, htonl, htonll and back, on a little-endian host -----

  function Htons(x: u16): u16 {
    x % 256 * 256 + x / 256
  }

  function Htonl(x: u32): u32 {
    x % 256 * 0x100_0000 + x / 0x100 % 256 * 0x1_0000 + x / 0x1_0000 % 256 * 0x100 + x / 0x100_0000
  }

  /** The macro swaps each 32-bit half and exchanges the halves; the halves do not overlap,
      so the bitwise or of src/message.h:42 is a sum. */
  function Htonll(x: u64): u64 {
    Htonl(x % TWO_32) * TWO_32 + Htonl(x / TWO_32)
  }

  // ntohs, ntohl and ntohll are the same swaps (src/message.h:43).
  function Ntohs(x: u16): u16 { Htons(x) }
  function Ntohl(x: u32): u32 { Htonl(x) }
  function Ntohll(x: u64): u64 { Htonll(x) }

  lemma HtonsStores(x: u16)
    ensures StoreLE(Htons(x), 2) == StoreBE(x, 2)
  {
    var y := Htons(x);
    assert StoreLE(y, 2) == [y % 256, y / 256 % 256];
    assert StoreBE(x, 2) == [x / 256 % 256, x % 256];
  }

  lemma StoreLE4(x: nat)
    ensures StoreLE(x, 4) == [x % 256, x / 0x100 % 256, x / 0x1_0000 % 256, x / 0x100_0000 % 256]
  {
    assert StoreLE(x / 0x1_0000, 2) == [x / 0x1_0000 % 256, x / 0x100_0000 % 256];
    assert StoreLE(x / 0x100, 3) == [x / 0x100 % 256] + StoreLE(x / 0x1_0000, 2);
  }

  lemma StoreBE4(x: nat)
    ensures StoreBE(x, 4) == [x / 0x100_0000 % 256, x / 0x1_0000 % 256, x / 0x100 % 256, x % 256]
  {
    assert StoreBE(x / 0x1_0000, 2) == [x / 0x100_0000 % 256, x / 0x1_0000 % 256];
    assert StoreBE(x / 0x100, 3) == StoreBE(x / 0x1_0000, 2) + [x / 0x100 % 256];
  }

  /** The base-256 digits of a sum of four scaled bytes. */
  lemma Digits4(y: nat, a: byte, b: byte, c: byte, d: byte)
    requires y == a * 0x100_0000 + b * 0x1_0000 + c * 0x100 + d
    ensures y % 256 == d && y / 0x100 % 256 == c && y / 0x1_0000 % 256 == b && y / 0x100_0000 == a
  {
    assert y / 0x100 == a * 0x1_0000 + b * 0x100 + c;
    assert y / 0x1_0000 == a * 0x100 + b;
  }

  lemma HtonlStores(x: u32)
    ensures StoreLE(Htonl(x), 4) == StoreBE(x, 4)
  {
    var y := Htonl(x);
    Digits4(y, x % 256, x / 0x100 % 256, x / 0x1_0000 % 256, x / 0x100_0000);
    assert y / 0x100_0000 % 256 == x % 256;
    assert x / 0x100_0000 % 256 == x / 0x100_0000;
    StoreLE4(y);
    StoreBE4(x);
  }

  /** Taking the lowest byte off lo + 256 * p * hi. */
  lemma LowByteOff(lo: nat, p: nat, hi: nat)
    ensures (lo + 256 * p * hi) % 256 == lo % 256
    ensures (lo + 256 * p * hi) / 256 == lo / 256 + p * hi
  {
    assert lo + 256 * p * hi == 256 * (lo / 256 + p * hi) + lo % 256;
  }

  lemma {:induction false} StoreLESplit(lo: nat, hi: nat, n: nat, k: nat)
    requires lo < Pow256(n)
    ensures StoreLE(lo + Pow256(n) * hi, n + k) == StoreLE(lo, n) + StoreLE(hi, k)
  {
    if n > 0 {
      LowByteOff(lo, Pow256(n - 1), hi);
      StoreLESplit(lo / 256, hi, n - 1, k);
    }
  }

  lemma {:induction false} StoreBESplit(lo: nat, hi: nat, n: nat, k: nat)
    requires lo < Pow256(k)
    ensures StoreBE(lo + Pow256(k) * hi, n + k) == StoreBE(hi, n) + StoreBE(lo, k)
  {
    if k > 0 {
      LowByteOff(lo, Pow256(k - 1), hi);
      StoreBESplit(lo / 256, hi, n, k - 1);
    }
  }

  /** Storing htonll(x) puts the eight bytes of x on the wire most significant first,
      that is, the full reversal of the host's own image of x. */
  lemma HtonllIsByteReversal(x: u64)
    ensures StoreLE(Htonll(x), 8) == StoreBE(x, 8)
    ensures StoreLE(Htonll(x), 8) == Reversed(StoreLE(x, 8))
  {
    Pow256Values();
    var lo, hi := x % TWO_32, x / TWO_32;
    StoreLESplit(Htonl(hi), Htonl(lo), 4, 4);
    HtonlStores(hi);
    HtonlStores(lo);
    StoreBESplit(lo, hi, 4, 4);
    BigEndianIsReversedLE(x, 8);
  }

  lemma Recompose4(x: nat)
    ensures x == x / 0x100_0000 * 0x100_0000 + x / 0x1_0000 % 256 * 0x1_0000 + x / 0x100 % 256 * 0x100 + x % 256
  {
    var y := x / 0x100;
    var z := y / 0x100;
    assert x == 0x100 * y + x % 0x100 && y == 0x100 * z + y % 0x100 && z == 0x100 * (z / 0x100) + z % 0x100;
  }

  lemma HtonlInvolution(x: u32)
    ensures Ntohl(Htonl(x)) == x
  {
    var a, b, c, d := x % 256, x / 0x100 % 256, x / 0x1_0000 % 256, x / 0x100_0000;
    Digits4(Htonl(x), a, b, c, d);
    Recompose4(x);
  }

  /** ntohll undoes htonll, and htonll undoes ntohll. */
  lemma HtonllInvolution(x: u64)
    ensures Ntohll(Htonll(x)) == x
    ensures Htonll(Ntohll(x)) == x
  {
    var lo, hi := x % TWO_32, x / TWO_32;
    var y := Htonll(x);
    assert y / TWO_32 == Htonl(lo) && y % TWO_32 == Htonl(hi);
    HtonlInvolution(lo);
    HtonlInvolution(hi);
  }

  // Reading direction: the swap of what the host loads is the network-order value.

  lemma NtohsLoads(m: seq<byte>)
    requires |m| == 2
    ensures LoadLE(m) < TWO_16 && LoadBE(m) < TWO_16 && Ntohs(LoadLE(m)) == LoadBE(m)
  {
    Pow256Values();
    var x := LoadBE(m);
    HtonsStores(x);
    StoreLoadBE(m);
    LoadStoreLE(Htons(x), 2);
  }

  lemma NtohlLoads(m: seq<byte>)
    requires |m| == 4
    ensures LoadLE(m) < TWO_32 && LoadBE(m) < TWO_32 && Ntohl(LoadLE(m)) == LoadBE(m)
  {
    Pow256Values();
    var x := LoadBE(m);
    HtonlStores(x);
    StoreLoadBE(m);
    LoadStoreLE(Htonl(x), 4);
    HtonlInvolution(x);
  }

  lemma NtohllLoads(m: seq<byte>)
    requires |m| == 8
    ensures LoadLE(m) < TWO_64 && LoadBE(m) < TWO_64 && Ntohll(LoadLE(m)) == LoadBE(m)
  {
    Pow256Values();
    var x := LoadBE(m);
    HtonllIsByteReversal(x);
    StoreLoadBE(m);
    LoadStoreLE(Htonll(x), 8);
    HtonllInvolution(x);
  }
}
