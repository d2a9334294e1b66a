/** Positional numerals, most significant digit first, in any base; and fixed-width little-endian ones. */
module Numerals {

  type Byte = n: nat | n < 256

  ghost predicate ValidDigits(ds: seq<nat>, b: nat) {
    forall i | 0 <= i < |ds| :: ds[i] < b
  }

  /** The number a numeral denotes. */
  function Value(ds: seq<nat>, b: nat): nat {
    if ds == [] then 0 else Value(ds[..|ds| - 1], b) * b + ds[|ds| - 1]
  }

  /** The numeral of a number, without leading zeros. */
  function Digits(n: nat, b: nat): (ds: seq<nat>)
    requires b >= 2
    ensures ValidDigits(ds, b)
  {
    if n == 0 then []
    else
      QuotientSmaller(n, b);
      Digits(n / b, b) + [n % b]
  }

  lemma QuotientSmaller(n: nat, b: nat)
    requires n > 0 && b >= 2
    ensures 0 <= n / b < n
    ensures n == (n / b) * b + n % b
  {
    var k := n / b;
    assert n == k * b + n % b;
    assert k >= n ==> k * b >= k * 2;
  }

  lemma DivMod(q: nat, d: nat, b: nat)
    requires d < b
    ensures (q * b + d) / b == q && (q * b + d) % b == d
  {
    var n := q * b + d;
    var k := n / b;
    assert n == k * b + n % b;
    assert k < q ==> (k + 1) * b <= q * b;
    assert k > q ==> (q + 1) * b <= k * b;
  }

  /** One more digit at the end of a numeral. */
  lemma DigitsSnoc(v: nat, d: nat, b: nat)
    requires b >= 2 && d < b
    ensures Digits(v * b + d, b) == if v == 0 && d == 0 then [] else Digits(v, b) + [d]
  {
    DivMod(v, d, b);
    assert v > 0 ==> v * b >= b;
  }

  lemma ValueSnoc(ds: seq<nat>, d: nat, b: nat)
    ensures Value(ds + [d], b) == Value(ds, b) * b + d
  {
    assert (ds + [d])[..|ds|] == ds;
  }

  lemma ValueOfOne(d: nat, b: nat)
    ensures Value([d], b) == d
  {
    assert [] + [d] == [d];
    ValueSnoc([], d, b);
  }

  lemma {:induction false} ValueOfDigits(n: nat, b: nat)
    requires b >= 2
    ensures Value(Digits(n, b), b) == n
  {
    if n > 0 {
      QuotientSmaller(n, b);
      ValueOfDigits(n / b, b);
      ValueSnoc(Digits(n / b, b), n % b, b);
    }
  }

  /** How many zeros a numeral starts with. */
  function LeadingZeros(ds: seq<nat>): (z: nat)
    ensures z <= |ds|
    ensures forall i | 0 <= i < z :: ds[i] == 0
    ensures z < |ds| ==> ds[z] != 0
  {
    if ds == [] || ds[0] != 0 then 0 else 1 + LeadingZeros(ds[1..])
  }

  function Zeros(n: nat): (ds: seq<nat>)
    ensures |ds| == n && forall i | 0 <= i < n :: ds[i] == 0
  {
    seq(n, _ => 0)
  }

  /** A numeral without its leading zeros. */
  function Strip(ds: seq<nat>): seq<nat> {
    ds[LeadingZeros(ds)..]
  }

  lemma StripSnoc(ds: seq<nat>, d: nat)
    ensures Strip(ds + [d]) == if Strip(ds) == [] && d == 0 then [] else Strip(ds) + [d]
  {
    var z := LeadingZeros(ds);
    var more := ds + [d];
    assert forall i | 0 <= i < |ds| :: more[i] == ds[i];
    if z < |ds| {
      ZerosUnique(more, z);
    } else if d == 0 {
      ZerosUnique(more, |more|);
    } else {
      ZerosUnique(more, |ds|);
    }
  }

  lemma ZerosUnique(ds: seq<nat>, z: nat)
    requires z <= |ds| && (forall i | 0 <= i < z :: ds[i] == 0) && (z < |ds| ==> ds[z] != 0)
    ensures LeadingZeros(ds) == z
  {
  }

  lemma {:induction false} StrippedEmpty(ds: seq<nat>, b: nat)
    requires Strip(ds) == []
    ensures Value(ds, b) == 0
  {
    if ds != [] {
      var n := |ds| - 1;
      assert ds == ds[..n] + [ds[n]];
      StripSnoc(ds[..n], ds[n]);
      StrippedEmpty(ds[..n], b);
    }
  }

  /** Writing out the number a numeral denotes gives the numeral back, but for leading zeros. */
  lemma {:induction false} DigitsOfValue(ds: seq<nat>, b: nat)
    requires b >= 2 && ValidDigits(ds, b)
    ensures Digits(Value(ds, b), b) == Strip(ds)
  {
    if ds != [] {
      var n := |ds| - 1;
      var front, d := ds[..n], ds[n];
      assert ds == front + [d];
      DigitsOfValue(front, b);
      DigitsSnoc(Value(front, b), d, b);
      StripSnoc(front, d);
      if Strip(front) == [] {
        StrippedEmpty(front, b);
      } else {
        assert Digits(Value(front, b), b) != [];
      }
    }
  }

  /** Leading zeros do not change a value, and a value's digits have none. */
  lemma DigitsHaveNoLeadingZero(n: nat, b: nat)
    requires b >= 2
    ensures LeadingZeros(Digits(n, b)) == 0
  {
    if n > 0 {
      ValueOfDigits(n, b);
      DigitsOfValue(Digits(n, b), b);
      assert |Strip(Digits(n, b))| == |Digits(n, b)| - LeadingZeros(Digits(n, b));
    }
  }

  lemma {:induction false} ValueOfPadded(z: nat, ds: seq<nat>, b: nat)
    ensures Value(Zeros(z) + ds, b) == Value(ds, b)
    decreases |ds|
  {
    var all := Zeros(z) + ds;
    if ds == [] {
      assert all == Zeros(z);
      ZerosUnique(all, z);
      StrippedEmpty(all, b);
    } else {
      var n := |ds| - 1;
      assert all[..|all| - 1] == Zeros(z) + ds[..n];
      ValueOfPadded(z, ds[..n], b);
    }
  }

  lemma LeadingZerosOfPadded(z: nat, ds: seq<nat>)
    requires LeadingZeros(ds) == 0
    ensures LeadingZeros(Zeros(z) + ds) == z
  {
    ZerosUnique(Zeros(z) + ds, z);
  }

  // ---- Fixed-width little-endian numbers ----

  /** How many numbers `w` bytes can hold. */
  function Width(w: nat): (n: nat)
    ensures n > 0
  {
    if w == 0 then 1 else 256 * Width(w - 1)
  }

  lemma Widths()
    ensures Width(1) == 0x100 && Width(2) == 0x1_0000 && Width(4) == 0x1_0000_0000
    ensures Width(8) == 0x1_0000_0000_0000_0000
  {
    assert Width(3) == 0x100_0000;
    assert Width(6) == 0x1_0000_0000_0000;
  }

  function FromLE(bytes: seq<Byte>): (n: nat)
    ensures n < Width(|bytes|)
  {
    if bytes == [] then 0 else bytes[0] + 256 * FromLE(bytes[1..])
  }

  function ToLE(n: nat, w: nat): (bytes: seq<Byte>)
    ensures |bytes| == w
  {
    if w == 0 then [] else [n % 256] + ToLE(n / 256, w - 1)
  }

  lemma {:induction false} FromToLE(n: nat, w: nat)
    requires n < Width(w)
    ensures FromLE(ToLE(n, w)) == n
  {
    if w > 0 {
      FromToLE(n / 256, w - 1);
      assert ToLE(n, w)[1..] == ToLE(n / 256, w - 1);
    }
  }

  lemma {:induction false} ToFromLE(bytes: seq<Byte>)
    ensures ToLE(FromLE(bytes), |bytes|) == bytes
  {
    if bytes != [] {
      ToFromLE(bytes[1..]);
      DivMod(FromLE(bytes[1..]), bytes[0], 256);
    }
  }

  lemma Shifted(d: nat, h: nat, w: nat, low: nat)
    ensures d + 256 * (h * w + low) == h * (256 * w) + (d + 256 * low)
  {
    assert 256 * (h * w) == h * (256 * w);
  }

  /** Two halves read apart and put together, as a wide integer is. */
  lemma {:induction false} FromLEHalves(low: seq<Byte>, high: seq<Byte>)
    ensures FromLE(low + high) == FromLE(high) * Width(|low|) + FromLE(low)
  {
    if low == [] {
      assert low + high == high;
    } else {
      assert (low + high)[1..] == low[1..] + high;
      FromLEHalves(low[1..], high);
      Shifted(low[0], FromLE(high), Width(|low| - 1), FromLE(low[1..]));
    }
  }

  // ---- Fixed-width big-endian numbers, read by Value in base 256 ----

  function ToBE(n: nat, w: nat): (bytes: seq<Byte>)
    ensures |bytes| == w
  {
    if w == 0 then [] else ToBE(n / 256, w - 1) + [n % 256]
  }

  lemma {:induction false} ValueToBE(n: nat, w: nat)
    requires n < Width(w)
    ensures Value(ToBE(n, w), 256) == n
  {
    if w > 0 {
      ValueToBE(n / 256, w - 1);
      ValueSnoc(ToBE(n / 256, w - 1), n % 256, 256);
    }
  }

  lemma {:induction false} ToBEValue(bytes: seq<Byte>)
    ensures Value(bytes, 256) < Width(|bytes|)
    ensures ToBE(Value(bytes, 256), |bytes|) == bytes
  {
    if bytes != [] {
      var n := |bytes| - 1;
      ToBEValue(bytes[..n]);
      DivMod(Value(bytes[..n], 256), bytes[n], 256);
    }
  }

  // ---- Digit by digit ----

  lemma DivDiv(n: nat, a: nat, b: nat)
    requires a > 0 && b > 0
    ensures a * b > 0 && n / a / b == n / (a * b)
  {
    var q, r := n / a, n % a;
    var p, t := q / b, q % b;
    Combined(n, a, b, q, r, p, t);
    QuotientIs(n, a * b, p, t * a + r);
  }

  lemma Combined(n: nat, a: nat, b: nat, q: nat, r: nat, p: nat, t: nat)
    requires n == q * a + r && r < a && q == p * b + t && t < b
    ensures n == p * (a * b) + (t * a + r) && t * a + r < a * b
  {
    Regrouped(p, b, t, a);
    Bounded(t, b, a, r);
  }

  lemma Regrouped(p: nat, b: nat, t: nat, a: nat)
    ensures (p * b + t) * a == p * (a * b) + t * a
  {
    assert (p * b) * a == p * (a * b);
  }

  lemma Bounded(t: nat, b: nat, a: nat, r: nat)
    requires t < b && r < a
    ensures t * a + r < a * b
  {
    var k := b - 1 - t;
    assert a * b == t * a + k * a + a;
  }

  lemma QuotientIs(n: nat, d: nat, q: nat, r: nat)
    requires n == q * d + r && r < d
    ensures n / d == q
  {
    DivMod(q, r, d);
  }

  /** Byte `i` of a little-endian number is its digit of weight 256 to the `i`. */
  lemma {:induction false} LittleEndian(n: nat, w: nat, i: nat)
    requires i < w
    ensures ToLE(n, w)[i] == n / Width(i) % 256
  {
    if i > 0 {
      LittleEndian(n / 256, w - 1, i - 1);
      DivDiv(n, 256, Width(i - 1));
    }
  }

  /** And the other way round in a big-endian one. */
  lemma {:induction false} BigEndian(n: nat, w: nat, i: nat)
    requires i < w
    ensures ToBE(n, w)[w - 1 - i] == n / Width(i) % 256
  {
    if i > 0 {
      BigEndian(n / 256, w - 1, i - 1);
      DivDiv(n, 256, Width(i - 1));
    }
  }

  /** The first digit of a numeral weighs most: the base to as many places as follow it. */
  lemma {:induction false} ValueCons(d: nat, ds: seq<nat>, b: nat)
    ensures Value([d] + ds, b) == d * Power(b, |ds|) + Value(ds, b)
  {
    if ds == [] {
      ValueOfOne(d, b);
      assert [d] + ds == [d];
    } else {
      var n := |ds| - 1;
      ValueCons(d, ds[..n], b);
      assert [d] + ds == ([d] + ds[..n]) + [ds[n]] && ds == ds[..n] + [ds[n]];
      ValueSnoc([d] + ds[..n], ds[n], b);
      var v, p := Value(ds[..n], b), Power(b, n);
      assert (d * p + v) * b + ds[n] == d * (p * b) + (v * b + ds[n]);
    }
  }

  function Power(b: nat, n: nat): nat {
    if n == 0 then 1 else Power(b, n - 1) * b
  }
}
