/** Byte buffers: Node's `subarray`, and how consecutive fields lie in one. */
module Buffers {
  import opened Numerals

  /** `subarray(at, at + n)`: cut off at the end, and empty beyond it. */
  function Slice(bytes: seq<Byte>, at: nat, n: nat): (slice: seq<Byte>)
    ensures |slice| <= n
  {
    if at >= |bytes| then [] else if at + n <= |bytes| then bytes[at..at + n] else bytes[at..]
  }

  /** From `at` on, the bytes are a field and then the rest. */
  predicate Next(bytes: seq<Byte>, at: nat, field: seq<Byte>, rest: seq<Byte>) {
    at <= |bytes| && bytes[at..] == field + rest
  }

  lemma Nested(a: seq<Byte>, b: seq<Byte>, c: seq<Byte>, d: seq<Byte>, rest: seq<Byte>)
    ensures (a + b + c + d) + rest == a + (b + (c + (d + rest)))
    ensures (c + d) + rest == c + (d + rest)
  {
    assert (a + b) + (c + (d + rest)) == a + (b + (c + (d + rest)));
    assert (a + b + c) + (d + rest) == (a + b) + (c + (d + rest));
    assert (a + b + c + d) + rest == (a + b + c) + (d + rest);
  }

  lemma SliceNext(bytes: seq<Byte>, at: nat, field: seq<Byte>, rest: seq<Byte>)
    requires Next(bytes, at, field, rest)
    ensures Slice(bytes, at, |field|) == field
    ensures at + |field| <= |bytes| && bytes[at + |field|..] == rest
  {
    assert |bytes[at..]| == |field| + |rest|;
    assert bytes[at..][..|field|] == field;
    assert bytes[at..][|field|..] == rest;
  }

  /** A buffer from a point on is its next bytes and then the rest. */
  lemma SplitAt(bytes: seq<Byte>, at: nat, n: nat)
    requires at + n <= |bytes|
    ensures Next(bytes, at, Slice(bytes, at, n), bytes[at + n..])
  {
  }

  /** A field of a buffer cut off at its end is the field, cut off there. */
  lemma SliceOfPrefix(bytes: seq<Byte>, cut: seq<Byte>, at: nat, n: nat)
    requires cut <= bytes && at <= |cut|
    ensures Slice(cut, at, n) <= Slice(bytes, at, n)
    ensures |Slice(cut, at, n)| == if at + n <= |cut| then n else |cut| - at
    ensures at + n <= |cut| ==> Slice(cut, at, n) == Slice(bytes, at, n)
  {
    var field, short := Slice(bytes, at, n), Slice(cut, at, n);
    assert |short| <= |field|;
    forall k | 0 <= k < |short| ensures short[k] == field[k] {
      assert short[k] == cut[at + k] == bytes[at + k];
    }
  }

  /** A field within a stretch of a buffer is a field of the buffer. */
  lemma SliceWithin(bytes: seq<Byte>, part: seq<Byte>, from: nat, at: nat, n: nat)
    requires from + |part| <= |bytes| && part == bytes[from..from + |part|] && at + n <= |part|
    ensures Slice(part, at, n) == part[at..at + n] == bytes[from + at..from + at + n]
  {
    assert n == 0 ==> part[at..at + n] == [];
    var slice, field := part[at..at + n], bytes[from + at..from + at + n];
    forall k | 0 <= k < n ensures slice[k] == field[k] {
      assert part[at + k] == bytes[from + at + k];
    }
  }

  lemma TwoJoined(bytes: seq<Byte>, a: nat, b: nat, c: nat)
    requires a <= b <= c <= |bytes|
    ensures bytes[a..c] == bytes[a..b] + bytes[b..c]
  {
  }

  lemma FourJoined(bytes: seq<Byte>, a: nat, b: nat, c: nat, d: nat, e: nat)
    requires a <= b <= c <= d <= e <= |bytes|
    ensures bytes[a..e] == bytes[a..b] + bytes[b..c] + bytes[c..d] + bytes[d..e]
  {
    TwoJoined(bytes, a, b, c);
    TwoJoined(bytes, a, c, d);
    TwoJoined(bytes, a, d, e);
  }
}
