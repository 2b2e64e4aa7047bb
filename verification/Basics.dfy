/** Bytes, texts, 64-bit words as they lie in a message buffer, and what `std::map::emplace` does. */
module Basics {

  /** `uint8_t`, and also the `char` of a `std::string`. */
  newtype byte = n: int | 0 <= n < 256

  /** A `std::string`: any bytes at all, no encoding attached. */
  type Text = seq<byte>

  /** The values of `uint64_t` and `size_t` lie below this. */
  const TWO_TO_64: nat := 0x1_0000_0000_0000_0000

  const MESSAGE_BUFFER_SIZE: nat := 65536

  /** What a secure channel carries: always one whole message buffer. */
  type Buffer = b: seq<byte> | |b| == MESSAGE_BUFFER_SIZE
    ghost witness seq(MESSAGE_BUFFER_SIZE, _ => 0)

  datatype Option<+T> = None | Some(value: T)

  /** `std::map::emplace`: inserts, but leaves an entry that is already there alone. */
  function Emplace<K, V>(m: map<K, V>, k: K, v: V): map<K, V> {
    if k in m then m else m[k := v]
  }

  lemma TakeMore<T>(xs: seq<T>, n: nat)
    requires n < |xs|
    ensures xs[..n + 1] == xs[..n] + [xs[n]]
  {
  }

  lemma TakeAndDrop<T>(xs: seq<T>, n: nat)
    requires n <= |xs|
    ensures xs == xs[..n] + xs[n..]
    ensures xs[..|xs|] == xs
  {
  }

  /** The bytes of a string literal. */
  function Ascii(s: string): (t: Text)
    requires forall i :: 0 <= i < |s| ==> s[i] as int < 256
    ensures |t| == |s|
    ensures forall i :: 0 <= i < |s| ==> t[i] as int == s[i] as int
  {
    seq(|s|, i requires 0 <= i < |s| => (s[i] as int) as byte)
  }

  function Pow256(k: nat): (p: nat)
    ensures p > 0
  {
    if k == 0 then 1 else 256 * Pow256(k - 1)
  }

  /** The `k` low-order bytes of `n`, least significant first. */
  function LittleEndian(n: nat, k: nat): (b: seq<byte>)
    ensures |b| == k
    decreases k
  {
    if k == 0 then [] else [(n % 256) as byte] + LittleEndian(n / 256, k - 1)
  }

  function FromLittleEndian(b: seq<byte>): nat {
    if b == [] then 0 else b[0] as nat + 256 * FromLittleEndian(b[1..])
  }

  lemma {:induction false} LittleEndianThenBack(n: nat, k: nat)
    requires n < Pow256(k)
    ensures FromLittleEndian(LittleEndian(n, k)) == n
    decreases k
  {
    if k > 0 {
      LittleEndianThenBack(n / 256, k - 1);
      assert LittleEndian(n, k)[1..] == LittleEndian(n / 256, k - 1);
    }
  }

  lemma {:induction false} FromLittleEndianThenBack(b: seq<byte>)
    ensures FromLittleEndian(b) < Pow256(|b|)
    ensures LittleEndian(FromLittleEndian(b), |b|) == b
  {
    if b != [] {
      FromLittleEndianThenBack(b[1..]);
      var n := FromLittleEndian(b);
      assert n % 256 == b[0] as nat && n / 256 == FromLittleEndian(b[1..]);
      assert b == [b[0]] + b[1..];
    }
  }

  /** The eight bytes that copying a `uint64_t` holding `n` puts in a buffer. */
  function Word64(n: nat): (b: seq<byte>)
    ensures |b| == 8
  {
    LittleEndian(n, 8)
  }

  /** Byte `i` counts the 256-to-the-`i`: the word lies in the buffer least significant byte first. */
  lemma Word64Bytes(n: nat, i: nat)
    requires i < 8
    ensures Word64(n)[i] as int == n / Pow256(i) % 256
  {
    LittleEndianBytes(n, 8, i);
  }

  lemma {:induction false} LittleEndianBytes(n: nat, k: nat, i: nat)
    requires i < k
    ensures LittleEndian(n, k)[i] as int == n / Pow256(i) % 256
    decreases k
  {
    if i > 0 {
      LittleEndianBytes(n / 256, k - 1, i - 1);
      DivideTwice(n, Pow256(i - 1));
    }
  }

  lemma DivideTwice(n: nat, d: nat)
    requires d > 0
    ensures n / 256 / d == n / (256 * d)
  {
    var q, r := n / 256 / d, n / 256 % d;
    assert n / 256 == q * d + r;
    assert n == (256 * d) * q + (256 * r + n % 256);
    assert 256 * r + n % 256 < 256 * d;
    Quotient(n, 256 * d, q, 256 * r + n % 256);
  }

  lemma Quotient(n: nat, d: nat, q: nat, r: nat)
    requires n == d * q + r && r < d
    ensures n / d == q
  {
    Multiple(d, n / d - q);
    assert d * (n / d - q) == r - n % d;
  }

  lemma Multiple(d: nat, k: int)
    ensures k >= 1 ==> d * k >= d
    ensures k <= -1 ==> d * k + d <= 0
  {
  }

  lemma Pow256Of8()
    ensures Pow256(8) == TWO_TO_64
  {
    assert Pow256(4) == 0x1_0000_0000;
  }

  /** A 64-bit word survives the trip through a buffer, in both directions. */
  lemma Word64RoundTrip(n: nat, b: seq<byte>)
    requires |b| == 8
    ensures n < TWO_TO_64 ==> FromLittleEndian(Word64(n)) == n
    ensures FromLittleEndian(b) < TWO_TO_64 && Word64(FromLittleEndian(b)) == b
  {
    Pow256Of8();
    if n < TWO_TO_64 {
      LittleEndianThenBack(n, 8);
    }
    FromLittleEndianThenBack(b);
  }
}
