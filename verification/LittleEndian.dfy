/** Bytes and explicit little-endian encoding of unsigned integers of a fixed width. */
module LittleEndian {

  type Byte = b: int | 0 <= b < 0x100

  /** 256 to the power n: the number of values an n-byte field can hold. */
  function Pow256(n: nat): (p: nat)
    ensures p > 0
  {
    if n == 0 then 1 else 0x100 * Pow256(n - 1)
  }

  /** The widths of the fields of the container format. */
  lemma Pow256Widths()
    ensures Pow256(1) == 0x100
    ensures Pow256(2) == 0x1_0000
    ensures Pow256(4) == 0x1_0000_0000
    ensures Pow256(8) == 0x1_0000_0000_0000_0000
  {
    assert Pow256(1) == 0x100;
    assert Pow256(2) == 0x1_0000;
    assert Pow256(3) == 0x100_0000;
    assert Pow256(4) == 0x1_0000_0000;
    assert Pow256(5) == 0x100_0000_0000;
    assert Pow256(6) == 0x1_0000_0000_0000;
    assert Pow256(7) == 0x100_0000_0000_0000;
  }

  /** The n-byte little-endian encoding of x: least significant byte first. */
  function Le(x: nat, n: nat): (r: seq<Byte>)
    requires x < Pow256(n)
    ensures |r| == n
  {
    if n == 0 then [] else [x % 0x100] + Le(x / 0x100, n - 1)
  }

  /** The unsigned value of a little-endian byte string. */
  function FromLe(s: seq<Byte>): (x: nat)
    ensures x < Pow256(|s|)
  {
    if s == [] then 0 else s[0] + 0x100 * FromLe(s[1..])
  }

  lemma {:induction false} FromLeLe(x: nat, n: nat)
    requires x < Pow256(n)
    ensures FromLe(Le(x, n)) == x
  {
    if n > 0 {
      FromLeLe(x / 0x100, n - 1);
      assert Le(x, n)[1..] == Le(x / 0x100, n - 1);
    }
  }

  lemma {:induction false} LeFromLe(s: seq<Byte>)
    ensures Le(FromLe(s), |s|) == s
  {
    if s != [] {
      LeFromLe(s[1..]);
      var x := FromLe(s);
      assert x % 0x100 == s[0] && x / 0x100 == FromLe(s[1..]);
    }
  }

  /** Two values of the same width have the same encoding only if they are equal. */
  lemma LeInjective(x: nat, y: nat, n: nat)
    requires x < Pow256(n) && y < Pow256(n)
    requires Le(x, n) == Le(y, n)
    ensures x == y
  {
    FromLeLe(x, n);
    FromLeLe(y, n);
  }

  /** A sequence of n zero bytes (calloc'd or memset memory). */
  function Zeros(n: nat): (r: seq<Byte>)
    ensures |r| == n && forall i :: 0 <= i < n ==> r[i] == 0
  {
    seq(n, _ => 0)
  }

  /** When the prefix of s of length |p| + |x| is p + x, x lies right after p and s starts with p. */
  lemma {:induction false} LastField(s: seq<Byte>, p: seq<Byte>, x: seq<Byte>)
    requires |p| + |x| <= |s| && s[..|p| + |x|] == p + x
    ensures s[|p| .. |p| + |x|] == x && s[..|p|] == p
  {
    assert s[|p| .. |p| + |x|] == s[..|p| + |x|][|p|..];
    assert s[..|p|] == s[..|p| + |x|][..|p|];
  }

  /** Two byte strings that agree on a slice agree at each position inside it. */
  lemma {:induction false} SameOn(x: seq<Byte>, y: seq<Byte>, lo: nat, hi: nat)
    requires lo <= hi <= |x| && hi <= |y| && x[lo..hi] == y[lo..hi]
    ensures forall i :: lo <= i < hi ==> x[i] == y[i]
  {
    forall i | lo <= i < hi ensures x[i] == y[i] {
      assert x[i] == x[lo..hi][i - lo];
    }
  }
}
