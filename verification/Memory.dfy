/** Byte-addressed memory and the 32-bit little-endian words the kernel keeps in it.
    The domain of a `Mem` is the set of mapped addresses: touching any other address
    is a page fault, so every read and write in the model carries `Mapped` as an obligation. */
module Memory {

  const U32_MAX := 0xFFFF_FFFF
  const PAGE_SIZE := 0x1000

  type Byte = b: int | 0 <= b < 256
  type Mem = map<int, Byte>

  /** `x & 0xFFFFF000`, then one page more when the low twelve bits were not zero. */
  function PageUp(x: int): (r: int)
    ensures r % PAGE_SIZE == 0 && x <= r < x + PAGE_SIZE
  {
    if x % PAGE_SIZE != 0 then x - x % PAGE_SIZE + PAGE_SIZE else x
  }

  predicate Mapped(m: Mem, a: int, n: nat) {
    forall x :: a <= x < a + n ==> x in m
  }

  /** Exactly the addresses of [lo, hi) are mapped. */
  ghost predicate DomainIs(m: Mem, lo: int, hi: int) {
    forall x :: x in m <==> lo <= x < hi
  }

  /** The two memories hold the same bytes, and the same mappings, on [lo, hi). */
  ghost predicate SameOn(m: Mem, m': Mem, lo: int, hi: int) {
    forall x :: lo <= x < hi && x in m ==> x in m' && m'[x] == m[x]
  }

  /** Nothing outside [lo, hi) differs between the two memories. */
  ghost predicate SameOutside(m: Mem, m': Mem, lo: int, hi: int) {
    && (forall x :: x in m' <==> x in m)
    && forall x :: x in m && !(lo <= x < hi) ==> m'[x] == m[x]
  }

  lemma SameOnSelf(m: Mem, lo: int, hi: int)
    ensures SameOn(m, m, lo, hi)
  {
  }

  lemma SameOnTrans(m: Mem, m1: Mem, m2: Mem, lo: int, hi: int, hi': int)
    requires SameOn(m, m1, lo, hi) && SameOn(m1, m2, lo, hi') && hi <= hi'
    ensures SameOn(m, m2, lo, hi)
  {
  }

  lemma OutsideTwice(m: Mem, m1: Mem, m2: Mem, lo1: int, hi1: int, lo2: int, hi2: int, lo: int, hi: int)
    requires SameOutside(m, m1, lo1, hi1) && SameOutside(m1, m2, lo2, hi2)
    requires lo <= lo1 && hi1 <= hi && lo <= lo2 && hi2 <= hi
    ensures SameOutside(m, m2, lo, hi)
  {
  }

  lemma OutsideOn(m: Mem, m': Mem, lo: int, hi: int, a: int, b: int)
    requires SameOutside(m, m', lo, hi) && (b <= lo || hi <= a)
    ensures SameOn(m, m', a, b)
  {
  }

  function ByteOf(m: Mem, a: int): Byte {
    if a in m then m[a] else 0
  }

  /** Little-endian value of the n bytes at a. */
  function LoadLE(m: Mem, a: int, n: nat): nat
    decreases n
  {
    if n == 0 then 0 else ByteOf(m, a) + 256 * LoadLE(m, a + 1, n - 1)
  }

  function StoreLE(m: Mem, a: int, n: nat, v: nat): Mem
    decreases n
  {
    if n == 0 then m else StoreLE(m, a + 1, n - 1, v / 256)[a := v % 256]
  }

  function Load32(m: Mem, a: int): nat {
    LoadLE(m, a, 4)
  }

  function Store32(m: Mem, a: int, v: nat): Mem {
    StoreLE(m, a, 4, v)
  }

  /** A 32-bit word has its lowest byte first. */
  lemma WordInBytes(m: Mem, a: int, b0: int, b1: int, b2: int, b3: int)
    requires a in m && a + 1 in m && a + 2 in m && a + 3 in m
    requires b0 == m[a] && b1 == m[a + 1] && b2 == m[a + 2] && b3 == m[a + 3]
    ensures Load32(m, a) == b0 + 0x100 * b1 + 0x1_0000 * b2 + 0x100_0000 * b3
  {
    assert LoadLE(m, a + 3, 1) == b3;
    assert LoadLE(m, a + 2, 2) == b2 + 0x100 * b3;
    assert LoadLE(m, a + 1, 3) == b1 + 0x100 * b2 + 0x1_0000 * b3;
  }

  lemma {:induction false} LoadLESame(m: Mem, m': Mem, a: int, n: nat)
    requires Mapped(m, a, n) && SameOn(m, m', a, a + n)
    ensures LoadLE(m', a, n) == LoadLE(m, a, n)
    decreases n
  {
    if n > 0 {
      assert a in m;
      LoadLESame(m, m', a + 1, n - 1);
    }
  }

  lemma {:induction false} StoreLEFrame(m: Mem, a: int, n: nat, v: nat)
    requires Mapped(m, a, n)
    ensures SameOutside(m, StoreLE(m, a, n, v), a, a + n)
    decreases n
  {
    if n > 0 {
      assert a in m;
      StoreLEFrame(m, a + 1, n - 1, v / 256);
    }
  }

  lemma {:induction false} LoadAfterStoreLE(m: Mem, a: int, n: nat, v: nat)
    requires Mapped(m, a, n) && n <= 4
    requires v < [1, 0x100, 0x1_0000, 0x100_0000, 0x1_0000_0000][n]
    ensures LoadLE(StoreLE(m, a, n, v), a, n) == v
    decreases n
  {
    if n > 0 {
      var inner := StoreLE(m, a + 1, n - 1, v / 256);
      LoadAfterStoreLE(m, a + 1, n - 1, v / 256);
      StoreLEFrame(m, a + 1, n - 1, v / 256);
      LoadLESame(inner, StoreLE(m, a, n, v), a + 1, n - 1);
    }
  }

  /** A stored word reads back, and only its own four bytes change. */
  lemma StoreLoad(m: Mem, a: int, v: nat)
    requires Mapped(m, a, 4) && v <= U32_MAX
    ensures Load32(Store32(m, a, v), a) == v
    ensures SameOutside(m, Store32(m, a, v), a, a + 4)
  {
    LoadAfterStoreLE(m, a, 4, v);
    StoreLEFrame(m, a, 4, v);
  }

  lemma LoadSame(m: Mem, m': Mem, a: int)
    requires Mapped(m, a, 4) && SameOn(m, m', a, a + 4)
    ensures Load32(m', a) == Load32(m, a)
  {
    LoadLESame(m, m', a, 4);
  }

  /** The bytes laid over the memory from address a on, where it is mapped. */
  ghost function Overlay(m: Mem, a: int, bytes: seq<Byte>): Mem {
    map x | x in m :: if a <= x < a + |bytes| then bytes[x - a] else m[x]
  }

  lemma OverlayNext(m: Mem, a: int, bytes: seq<Byte>, i: nat)
    requires i < |bytes| && Mapped(m, a, |bytes|)
    ensures a + i in m && a + i in Overlay(m, a, bytes[..i])
    ensures Overlay(m, a, bytes[..i])[a + i := bytes[i]] == Overlay(m, a, bytes[..i + 1])
  {
    assert a + i in m;
  }

  /** The words stored at a, a + 4, and so on, the last one first: the order of successive pushes. */
  ghost function StoreWords(m: Mem, a: int, words: seq<nat>): Mem
    decreases |words|
  {
    if words == [] then m else Store32(StoreWords(m, a + 4, words[1..]), a, words[0])
  }

  lemma {:induction false} StoreWordsFrame(m: Mem, a: int, words: seq<nat>)
    requires Mapped(m, a, 4 * |words|)
    ensures SameOutside(m, StoreWords(m, a, words), a, a + 4 * |words|)
    decreases |words|
  {
    if words != [] {
      var inner := StoreWords(m, a + 4, words[1..]);
      assert Mapped(m, a + 4, 4 * |words[1..]|);
      StoreWordsFrame(m, a + 4, words[1..]);
      assert Mapped(inner, a, 4);
      StoreLEFrame(inner, a, 4, words[0]);
      OutsideTwice(m, inner, StoreWords(m, a, words), a + 4, a + 4 * |words|, a, a + 4, a, a + 4 * |words|);
    }
  }

  /** Each stored word reads back. */
  lemma {:induction false} WordReadsBack(m: Mem, a: int, words: seq<nat>, i: nat)
    requires Mapped(m, a, 4 * |words|) && i < |words| && forall k :: 0 <= k < |words| ==> words[k] <= U32_MAX
    ensures Load32(StoreWords(m, a, words), a + 4 * i) == words[i]
    decreases |words|
  {
    hide Load32, Store32;
    var inner := StoreWords(m, a + 4, words[1..]);
    assert Mapped(m, a + 4, 4 * |words[1..]|);
    StoreWordsFrame(m, a + 4, words[1..]);
    assert Mapped(inner, a, 4);
    StoreLoad(inner, a, words[0]);
    if i > 0 {
      WordReadsBack(m, a + 4, words[1..], i - 1);
      assert Mapped(inner, a + 4 * i, 4);
      OutsideOn(inner, StoreWords(m, a, words), a, a + 4, a + 4 * i, a + 4 * i + 4);
      LoadSame(inner, StoreWords(m, a, words), a + 4 * i);
    }
  }
}
