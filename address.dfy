/** IPv4 addresses as the script holds them (a list of octets) and as the
    32-bit number they stand for, big-endian. */
module Address {
  import opened Arith

  predicate IsOctet(x: int) {
    0 <= x <= 255
  }

  predicate AllOctets(s: seq<int>) {
    forall i :: 0 <= i < |s| ==> IsOctet(s[i])
  }

  /** A validated address: exactly four octets, each in [0, 255]. */
  predicate IsAddress(s: seq<int>) {
    |s| == 4 && AllOctets(s)
  }

  /** `[x] * n`, and `x * n` for a one-character string `x` */
  function Repeat<T>(x: T, n: nat): (r: seq<T>)
    ensures |r| == n && forall i :: 0 <= i < n ==> r[i] == x
  {
    if n == 0 then [] else Repeat(x, n - 1) + [x]
  }

  /** The number a list of octets denotes, most significant octet first. */
  function ValueOf(s: seq<int>): nat
    requires AllOctets(s)
  {
    if s == [] then 0 else ValueOf(s[..|s| - 1]) * 256 + s[|s| - 1]
  }

  /** The `n` low octets of `v`, most significant first: the inverse of
      `ValueOf` that shows it injective. */
  function ToOctets(v: nat, n: nat): (s: seq<int>)
    ensures |s| == n && AllOctets(s)
  {
    if n == 0 then [] else ToOctets(v / 256, n - 1) + [v % 256]
  }

  /** The value of a four-octet address, written out. */
  lemma ValueOf4(s: seq<int>)
    requires IsAddress(s)
    ensures ValueOf(s) == ((s[0] * 256 + s[1]) * 256 + s[2]) * 256 + s[3]
  {
    var a := s[..3];
    var b := a[..2];
    var c := b[..1];
    assert c[..0] == [];
    assert ValueOf(c) == s[0];
    assert ValueOf(b) == ValueOf(c) * 256 + s[1];
    assert ValueOf(a) == ValueOf(b) * 256 + s[2];
  }

  /** `n` octets denote a number in [0, 2^(8n)). */
  lemma {:induction false} ValueRange(s: seq<int>)
    requires AllOctets(s)
    ensures 0 <= ValueOf(s) < Pow2(8 * |s|)
  {
    if s != [] {
      var init := s[..|s| - 1];
      ValueRange(init);
      Pow2Octets(8 * |init|);
      assert 8 * |s| == 8 * |init| + 8;
      assert ValueOf(init) + 1 <= Pow2(8 * |init|);
      MulLeft(ValueOf(init) + 1, Pow2(8 * |init|), 256);
    }
  }

  /** Octets are determined by the number they denote. */
  lemma {:induction false} ValueRoundTrip(s: seq<int>)
    requires AllOctets(s)
    ensures ToOctets(ValueOf(s), |s|) == s
  {
    if s != [] {
      var init := s[..|s| - 1];
      ValueRange(init);
      DivUnique(ValueOf(s), 256, ValueOf(init));
      ValueRoundTrip(init);
      assert s == init + [s[|s| - 1]];
    }
  }

  /** Two addresses are equal exactly when their 32-bit values are. */
  lemma ValueInjective(a: seq<int>, b: seq<int>)
    requires IsAddress(a) && IsAddress(b)
    ensures ValueOf(a) == ValueOf(b) <==> a == b
  {
    if ValueOf(a) == ValueOf(b) {
      ValueRoundTrip(a);
      ValueRoundTrip(b);
    }
  }

  /** Big-endian concatenation: the left part is shifted by 8 bits per
      octet of the right part. */
  lemma {:induction false} ValueConcat(a: seq<int>, b: seq<int>)
    requires AllOctets(a) && AllOctets(b)
    ensures ValueOf(a + b) == ValueOf(a) * Pow2(8 * |b|) + ValueOf(b)
  {
    if b == [] {
      assert a + b == a;
    } else {
      var b' := b[..|b| - 1];
      assert (a + b)[..|a + b| - 1] == a + b';
      ValueConcat(a, b');
      Pow2Octets(8 * |b'|);
      assert 8 * |b| == 8 * |b'| + 8;
      HornerStep(ValueOf(a), Pow2(8 * |b'|), ValueOf(b'), 256, b[|b| - 1]);
    }
  }

  /** Octet lists concatenate to octet lists. */
  lemma OctetsConcat(a: seq<int>, b: seq<int>)
    requires AllOctets(a) && AllOctets(b)
    ensures AllOctets(a + b)
  {
    forall i | 0 <= i < |a + b| ensures IsOctet((a + b)[i]) {
      if i < |a| { assert (a + b)[i] == a[i]; } else { assert (a + b)[i] == b[i - |a|]; }
    }
  }

  /** Appending one octet: the value shifts by 8 bits and takes it in. */
  lemma AppendValue(up: seq<int>, x: int)
    requires AllOctets(up) && IsOctet(x)
    ensures AllOctets(up + [x]) && ValueOf(up + [x]) == ValueOf(up) * 256 + x
  {
    OctetsConcat(up, [x]);
    assert (up + [x])[..|up|] == up;
  }

  /** The value of an address made of a prefix, one octet and a tail. */
  lemma PlacedValue(up: seq<int>, x: int, tail: seq<int>)
    requires AllOctets(up) && IsOctet(x) && AllOctets(tail)
    ensures AllOctets(up + [x] + tail)
    ensures ValueOf(up + [x] + tail)
      == ValueOf(up) * 256 * Pow2(8 * |tail|) + x * Pow2(8 * |tail|) + ValueOf(tail)
  {
    AppendValue(up, x);
    var w := up + [x];
    OctetsConcat(w, tail);
    ValueConcat(w, tail);
    ScaleShifted(ValueOf(w), ValueOf(up), x, Pow2(8 * |tail|));
  }

  /** Scaling a value that is `a` shifted by one octet with `x` taken in. */
  lemma ScaleShifted(v: int, a: int, x: int, p: int)
    requires v == a * 256 + x
    ensures v * p == a * 256 * p + x * p
  {
  }

  /** Zero octets denote 0. */
  lemma {:induction false} ValueOfZeros(n: nat)
    ensures ValueOf(Repeat(0, n)) == 0
  {
    if n > 0 {
      ValueOfZeros(n - 1);
      assert Repeat(0, n)[..n - 1] == Repeat(0, n - 1);
    }
  }

  /** Padding with `n` zero octets shifts the value by `n` octets. */
  lemma ZeroPadValue(up: seq<int>, n: nat)
    requires AllOctets(up) && n >= 1
    ensures AllOctets(up + Repeat(0, n))
    ensures ValueOf(up + Repeat(0, n)) == ValueOf(up) * 256 * Pow2(8 * (n - 1))
  {
    var zeros := Repeat(0, n);
    OctetsConcat(up, zeros);
    ValueConcat(up, zeros);
    ValueOfZeros(n);
    Pow2Octets(8 * (n - 1));
    assert 8 * (n - 1) + 8 == 8 * n;
    ShiftOctet(ValueOf(up), Pow2(8 * n), Pow2(8 * (n - 1)));
  }

  lemma ShiftOctet(v: int, q: int, p: int)
    requires q == p * 256
    ensures v * q == v * 256 * p
  {
  }

  /** All-ones octets denote 2^(8n) - 1. */
  lemma {:induction false} ValueOfOnes(n: nat)
    ensures ValueOf(Repeat(255, n)) == Pow2(8 * n) - 1
  {
    if n > 0 {
      ValueOfOnes(n - 1);
      var p := Pow2(8 * (n - 1));
      assert Repeat(255, n)[..n - 1] == Repeat(255, n - 1);
      Pow2Octets(8 * (n - 1));
      assert 8 * n == 8 * (n - 1) + 8;
      calc {
        ValueOf(Repeat(255, n));
        ValueOf(Repeat(255, n - 1)) * 256 + 255;
        (p - 1) * 256 + 255;
        p * 256 - 1;
        Pow2(8 * n) - 1;
      }
    }
  }
}
