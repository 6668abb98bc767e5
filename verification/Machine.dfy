/**
 Fixed-width arithmetic of the target: unsigned 32-bit values with wrap-around,
 and a 64-bit word seen as its 64 bits (bit n at index n).
 */
module Machine {

  datatype Option<+T> = None | Some(value: T)

  const U32_MOD: int := 0x1_0000_0000
  const I64_MAX: int := 0x7FFF_FFFF_FFFF_FFFF

  type u8 = x: int | 0 <= x < 256
  type u32 = x: int | 0 <= x < U32_MOD

  /** The value an unsigned 32-bit expression takes: reduced modulo 2^32. */
  function Wrap32(x: int): u32 {
    x % U32_MOD
  }

  ghost predicate FitsI64(x: int) {
    -I64_MAX - 1 <= x <= I64_MAX
  }

  type Word64 = w: seq<bool> | |w| == 64 witness seq(64, _ => false)

  function Zeros64(): Word64 {
    seq(64, _ => false)
  }

  function Ones64(): Word64 {
    seq(64, _ => true)
  }

  /** `w << k`: bits move up by k, zeros enter, the top k bits are lost. */
  function Shl(w: Word64, k: nat): Word64 {
    seq(64, n requires 0 <= n < 64 => n >= k && w[n - k])
  }

  /** `w | (1 << n)`. */
  function WithBit(w: Word64, n: nat): Word64
    requires n < 64
  {
    w[n := true]
  }

  ghost predicate Distinct<T>(s: seq<T>) {
    forall i, j :: 0 <= i < j < |s| ==> s[i] != s[j]
  }

  lemma DistinctAppend<T>(s: seq<T>, x: T)
    requires Distinct(s) && x !in s
    ensures Distinct(s + [x])
  {
  }

  lemma DistinctPrepend<T>(x: T, s: seq<T>)
    requires Distinct(s) && x !in s
    ensures Distinct([x] + s)
  {
    forall i, j | 0 <= i < j < |s| + 1
      ensures ([x] + s)[i] != ([x] + s)[j]
    {
      assert ([x] + s)[j] == s[j - 1];
    }
  }

  lemma NotDistinctAppend<T>(s: seq<T>, x: T)
    requires x in s
    ensures !Distinct(s + [x])
  {
    var i :| 0 <= i < |s| && s[i] == x;
    assert (s + [x])[i] == (s + [x])[|s|];
  }
}
