/**
 Big-endian integers: what big.Int.Bytes and big.Int.SetBytes do, the
 fixed-width form elliptic-curve points use, and the zero padding of leftPad.
 */
module BigEndian {
  import opened Common

  /** big.Int.SetBytes. */
  function FromBytes(b: seq<byte>): nat {
    if b == [] then 0 else FromBytes(b[..|b| - 1]) * 256 + b[|b| - 1]
  }

  /** big.Int.Bytes: no octet at all for zero, and never a leading zero octet. */
  function ToBytes(n: nat): seq<byte> {
    if n == 0 then [] else ToBytes(n / 256) + [n % 256]
  }

  function Pow256(k: nat): (p: nat)
    ensures p > 0
  {
    if k == 0 then 1 else 256 * Pow256(k - 1)
  }

  /** The fixed-width form: the low `size` octets of n. */
  function FixedBytes(n: nat, size: nat): (b: seq<byte>)
    ensures |b| == size
  {
    if size == 0 then [] else FixedBytes(n / 256, size - 1) + [n % 256]
  }

  function Zeros(k: nat): (z: seq<byte>)
    ensures |z| == k && forall i :: 0 <= i < k ==> z[i] == 0
  {
    seq(k, _ => 0)
  }

  /** The value of leftPad: a slice already long enough comes back as it is. */
  function LeftPadded(b: seq<byte>, size: nat): (p: seq<byte>)
    ensures |p| == if |b| >= size then |b| else size
  {
    if |b| >= size then b else Zeros(size - |b|) + b
  }

  predicate Minimal(b: seq<byte>) {
    b == [] || b[0] != 0
  }

  lemma {:induction false} FromToBytes(n: nat)
    ensures FromBytes(ToBytes(n)) == n
  {
    if n != 0 {
      var b := ToBytes(n);
      assert b[..|b| - 1] == ToBytes(n / 256);
      FromToBytes(n / 256);
    }
  }

  lemma {:induction false} ToBytesMinimal(n: nat)
    ensures Minimal(ToBytes(n)) && (ToBytes(n) == [] <==> n == 0)
  {
    if n != 0 {
      ToBytesMinimal(n / 256);
    }
  }

  /** A minimal octet string is the one big.Int.Bytes gives for its value, and no other is. */
  lemma {:induction false} ToFromBytes(b: seq<byte>)
    ensures ToBytes(FromBytes(b)) == b <==> Minimal(b)
  {
    if Minimal(b) {
      MinimalToFromBytes(b);
    } else {
      ToBytesMinimal(FromBytes(b));
    }
  }

  lemma {:induction false} MinimalToFromBytes(b: seq<byte>)
    requires Minimal(b)
    ensures ToBytes(FromBytes(b)) == b
    ensures b != [] ==> FromBytes(b) > 0
  {
    if b != [] {
      var init, last := b[..|b| - 1], b[|b| - 1];
      MinimalToFromBytes(init);
      assert b == init + [last];
      LowOctet(FromBytes(init), last);
    }
  }

  lemma LowOctet(q: nat, r: byte)
    ensures (q * 256 + r) / 256 == q && (q * 256 + r) % 256 == r
  {
  }

  lemma {:induction false} FromFixedBytes(n: nat, size: nat)
    requires n < Pow256(size)
    ensures FromBytes(FixedBytes(n, size)) == n
  {
    if size > 0 {
      var high, p := FixedBytes(n / 256, size - 1), Pow256(size - 1);
      HighPart(n, p);
      FromFixedBytes(n / 256, size - 1);
      hide Pow256;
      assert (high + [n % 256])[..size - 1] == high;
    }
  }

  lemma HighPart(n: nat, p: nat)
    requires n < 256 * p
    ensures n / 256 < p && n / 256 * 256 + n % 256 == n
  {
  }

  /** Octet strings of one length are determined by their value. */
  lemma {:induction false} FixedFromBytes(b: seq<byte>)
    ensures FixedBytes(FromBytes(b), |b|) == b
  {
    if b != [] {
      var init, last := b[..|b| - 1], b[|b| - 1];
      FixedFromBytes(init);
      assert b == init + [last];
    }
  }

  lemma {:induction false} FromBytesZeros(k: nat, b: seq<byte>)
    ensures FromBytes(Zeros(k) + b) == FromBytes(b)
  {
    var z := Zeros(k) + b;
    if b != [] {
      assert z[..|z| - 1] == Zeros(k) + b[..|b| - 1];
      FromBytesZeros(k, b[..|b| - 1]);
    } else if k > 0 {
      assert z[..|z| - 1] == Zeros(k - 1) + b;
      FromBytesZeros(k - 1, b);
    }
  }

  /** Padding never changes the value. */
  lemma LeftPaddedValue(b: seq<byte>, size: nat)
    ensures FromBytes(LeftPadded(b, size)) == FromBytes(b)
  {
    if |b| < size {
      FromBytesZeros(size - |b|, b);
    }
  }

  /** Cutting an octet string short divides its value: the octets kept are the high ones. */
  lemma {:induction false} FromBytesPrefix(b: seq<byte>, size: nat)
    requires size <= |b|
    ensures FromBytes(b[..size]) == FromBytes(b) / Pow256(|b| - size)
  {
    if size == |b| {
      assert b[..size] == b;
    } else {
      var init := b[..|b| - 1];
      FromBytesPrefix(init, size);
      assert init[..size] == b[..size];
      DivDiv(FromBytes(init), b[|b| - 1], Pow256(|init| - size));
    }
  }

  lemma DivDiv(q: nat, r: byte, p: nat)
    requires p > 0
    ensures (q * 256 + r) / (256 * p) == q / p
  {
    var d, m := q / p, q % p;
    assert q * 256 + r == d * (256 * p) + (m * 256 + r);
    DivUnique(256 * p, d, m * 256 + r);
  }

  lemma DivUnique(d: int, q: int, r: int)
    requires 0 <= r < d
    ensures (q * d + r) / d == q
  {
    var n := q * d + r;
    var q', r' := n / d, n % d;
    assert q' * d + r' == n;
    assert (q' - q) * d == r - r';
    if q' != q {
      MulAtLeast(q' - q, d);
    }
  }

  lemma {:induction false} MulAtLeast(k: int, d: int)
    requires k != 0 && d > 0
    ensures k > 0 ==> k * d >= d
    ensures k < 0 ==> k * d <= -d
    decreases if k > 0 then k else -k
  {
    if k > 1 {
      MulAtLeast(k - 1, d);
      assert k * d == (k - 1) * d + d;
    } else if k < -1 {
      MulAtLeast(k + 1, d);
      assert k * d == (k + 1) * d - d;
    }
  }
}
