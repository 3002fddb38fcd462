// The 24-byte chunk nonce: a little-endian counter stepped in place by sodium_increment
// after every chunk.
module Nonce {
  import opened Bytes

  const NONCE_SIZE: int := 24

  /** The number a little-endian byte string stands for. */
  function LE(s: bytes): (v: nat)
    ensures v < Pow256(|s|)
  {
    if s == [] then 0 else
      var low: int := s[0];
      low + 256 * LE(s[1..])
  }

  lemma {:induction false} LEInjective(a: bytes, b: bytes)
    requires |a| == |b| && LE(a) == LE(b)
    ensures a == b
  {
    if a != [] {
      LEInjective(a[1..], b[1..]);
      assert a == [a[0]] + a[1..] && b == [b[0]] + b[1..];
    }
  }

  /** One step of the counter: bytes that are full become zero, the first that is not is incremented. */
  function Next(s: bytes): (t: bytes)
    ensures |t| == |s|
  {
    if s == [] then []
    else if s[0] == 255 then [0] + Next(s[1..])
    else [s[0] + 1] + s[1..]
  }

  lemma {:induction false} NextIsPlusOne(s: bytes)
    ensures LE(Next(s)) == if LE(s) + 1 == Pow256(|s|) then 0 else LE(s) + 1
  {
    if s != [] && s[0] == 255 {
      NextIsPlusOne(s[1..]);
      assert Next(s)[1..] == Next(s[1..]);
    } else if s != [] {
      assert Next(s)[1..] == s[1..];
    }
  }

  /** What the carry loop writes from index `i` on when it arrives there with carry `c`. */
  function Ripple(s: bytes, i: nat, c: nat): (t: bytes)
    requires i <= |s| && c <= 1
    ensures |t| == |s| - i
    decreases |s| - i
  {
    if i == |s| then [] else
      var sum: int := s[i] + c;
      [sum % 256] + Ripple(s, i + 1, sum / 256)
  }

  lemma {:induction false} RippleIsNext(s: bytes, i: nat)
    requires i <= |s|
    ensures Ripple(s, i, 1) == Next(s[i..]) && Ripple(s, i, 0) == s[i..]
    decreases |s| - i
  {
    if i < |s| {
      RippleIsNext(s, i + 1);
      assert s[i..][1..] == s[i + 1..] && s[i..] == [s[i]] + s[i + 1..];
    }
  }

  /** The carry loop itself. */
  method Increment(n: array<byte>)
    modifies n
    ensures n[..] == Next(old(n[..]))
  {
    ghost var was := n[..];
    ghost var done: bytes := [];
    var c: nat := 1;
    for i := 0 to n.Length
      invariant c <= 1 && |done| == i
      invariant forall k :: 0 <= k < i ==> n[k] == done[k]
      invariant forall k :: i <= k < n.Length ==> n[k] == was[k]
      invariant Ripple(was, 0, 1) == done + Ripple(was, i, c)
    {
      var sum: int := n[i] + c;
      done := done + [sum % 256];
      n[i] := sum % 256;
      c := sum / 256;
    }
    RippleIsNext(was, 0);
    assert was[0..] == was;
    assert n[..] == done;
  }

  /** The nonce of chunk `i`. */
  function NonceAt(nonce: bytes, i: nat): (n: bytes)
    ensures |n| == |nonce|
  {
    if i == 0 then nonce else Next(NonceAt(nonce, i - 1))
  }

  lemma {:induction false} NonceAtValue(nonce: bytes, i: nat)
    requires i < Pow256(|nonce|)
    ensures LE(NonceAt(nonce, i))
         == if LE(nonce) + i < Pow256(|nonce|) then LE(nonce) + i else LE(nonce) + i - Pow256(|nonce|)
  {
    if i > 0 {
      NonceAtValue(nonce, i - 1);
      NextIsPlusOne(NonceAt(nonce, i - 1));
    }
  }

  /** No two chunks of one file share a nonce, whatever the starting nonce: the counter
      wraps but does not repeat within 256^24 chunks. */
  lemma NoncesDistinct(nonce: bytes, i: nat, j: nat)
    requires i < j < Pow256(|nonce|)
    ensures NonceAt(nonce, i) != NonceAt(nonce, j)
  {
    NonceAtValue(nonce, i);
    NonceAtValue(nonce, j);
  }
}
