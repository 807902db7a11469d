/** Result shapes shared by the readers and writers. */
module Outcomes {

  datatype Option<+T> = None | Some(value: T)

  /** How a reader in the crate ends: `Ok` and `Err` are the values it
      returns; `Abort` stands for a panic (an `unwrap` of a failed read, a
      failed `assert`, an `unimplemented!`), which returns nothing. */
  datatype Outcome<+T> = Ok(value: T) | Err | Abort
}

/** Bytes, their little-endian reading and writing, and stream reads. */
module Bytes {
  import opened Outcomes

  /** An unsigned 8-bit value. */
  newtype byte = b: int | 0 <= b < 256

  /** 256 to the n. */
  function Pow256(n: nat): (p: nat)
    ensures p > 0
  {
    if n == 0 then 1 else 256 * Pow256(n - 1)
  }

  /** The `n` little-endian bytes of `x`, cut to `n` bytes the way a cast to
      an `n`-byte unsigned integer wraps. */
  function LeBytes(x: nat, n: nat): (b: seq<byte>)
    ensures |b| == n
    ensures n > 0 ==> b[0] as nat == x % 256
  {
    if n == 0 then [] else [(x % 256) as byte] + LeBytes(x / 256, n - 1)
  }

  /** The unsigned value of little-endian bytes. */
  function LeValue(b: seq<byte>): (v: nat)
    ensures v < Pow256(|b|)
    ensures |b| > 0 ==> v % 256 == b[0] as nat
  {
    if b == [] then 0 else b[0] as nat + 256 * LeValue(b[1..])
  }

  /** Reading back `n` written bytes gives the value modulo 256^n. */
  lemma {:induction false} LeValueOfLeBytes(x: nat, n: nat)
    ensures LeValue(LeBytes(x, n)) == x % Pow256(n)
  {
    if n > 0 {
      var rest := LeBytes(x / 256, n - 1);
      var low := (x % 256) as byte;
      assert LeBytes(x, n) == [low] + rest;
      assert low as nat == x % 256;
      assert ([low] + rest)[1..] == rest;
      LeValueOfLeBytes(x / 256, n - 1);
      var p := Pow256(n - 1);
      ModSplit(x, p);
      calc {
        LeValue([low] + rest);
        low as nat + 256 * LeValue(rest);
        x % 256 + 256 * ((x / 256) % p);
        x % (256 * p);
      }
    }
  }

  /** Values that fit `n` bytes are read back unchanged. */
  lemma LeRoundTrip(x: nat, n: nat)
    requires x < Pow256(n)
    ensures LeValue(LeBytes(x, n)) == x
  {
    LeValueOfLeBytes(x, n);
    ModOfSplit(x, Pow256(n), 0, x);
  }

  /** Splitting a remainder by 256 * p into its low byte and the rest. */
  lemma ModSplit(x: nat, p: nat)
    requires p > 0
    ensures x % (256 * p) == x % 256 + 256 * ((x / 256) % p)
  {
    var q, r := x / 256, x % 256;
    var q2, r2 := q / p, q % p;
    assert q == p * q2 + r2;
    assert x == 256 * q + r;
    assert x == (256 * p) * q2 + (256 * r2 + r) by {
      assert 256 * q == 256 * (p * q2) + 256 * r2;
      assert 256 * (p * q2) == (256 * p) * q2;
    }
    assert 256 * r2 + r < 256 * p by {
      assert r2 + 1 <= p;
      assert 256 * (r2 + 1) <= 256 * p;
    }
    ModOfSplit(x, 256 * p, q2, 256 * r2 + r);
  }

  /** The remainder of x = m * q + r is r when r is below m. */
  lemma ModOfSplit(x: nat, m: nat, q: nat, r: nat)
    requires m > 0 && x == m * q + r && r < m
    ensures x % m == r
  {
    var d := q - x / m;
    assert m * d == x % m - r;
  }

  /** Bytes of an ASCII string. */
  function Ascii(s: string): (b: seq<byte>)
    requires forall i :: 0 <= i < |s| ==> s[i] as int < 128
    ensures |b| == |s|
  {
    if s == [] then [] else [(s[0] as int) as byte] + Ascii(s[1..])
  }

  /** Concatenation is associative. */
  lemma AppendAssoc<T>(a: seq<T>, b: seq<T>, c: seq<T>)
    ensures (a + b) + c == a + (b + c)
  {
  }

  /** `n` zero bytes. */
  function ZeroBytes(n: nat): (b: seq<byte>)
    ensures |b| == n && forall i :: 0 <= i < n ==> b[i] == 0
  {
    seq(n, _ => 0)
  }

  /** A buffer of `n` zero bytes built by `n` pushes, as `Vec::with_capacity`
      followed by a loop of `push(0)` does. */
  method ZeroedVec(n: nat) returns (v: seq<byte>)
    ensures v == ZeroBytes(n)
  {
    v := [];
    var i := 0;
    while i < n
      invariant 0 <= i <= n
      invariant v == ZeroBytes(i)
    {
      v := v + [0];
      i := i + 1;
    }
  }

  /** `read_exact` of a buffer of `n` bytes from a stream whose remaining
      bytes are `input[pos..]`: the next `n` bytes, or None when fewer remain
      (a short read). */
  function ReadExact(input: seq<byte>, pos: nat, n: nat): (r: Option<seq<byte>>)
    ensures r.Some? <==> pos + n <= |input|
    ensures r.Some? ==> r.value == input[pos..pos + n] && |r.value| == n
  {
    if pos + n <= |input| then Some(input[pos..pos + n]) else None
  }

  /** Reads advance a cursor: reading `a` bytes and then `b` more succeeds
      exactly when one read of `a + b` bytes does, and yields the same bytes. */
  lemma ReadExactSplit(input: seq<byte>, pos: nat, a: nat, b: nat)
    ensures ReadExact(input, pos, a + b).Some? <==>
            ReadExact(input, pos, a).Some? && ReadExact(input, pos + a, b).Some?
    ensures ReadExact(input, pos, a + b).Some? ==>
            ReadExact(input, pos, a + b).value ==
            ReadExact(input, pos, a).value + ReadExact(input, pos + a, b).value
  {
  }
}
