/** Shared vocabulary of the DER codec: octets, the 32-bit tag word, the
    platform size type with its SIZE_MAX bound, and the result type that
    replaces the SIZE_MAX error sentinel of the C interface. */
module Octets {

  /** One octet of encoded data. */
  type Octet = x: int | 0 <= x < 256

  /** An unsigned 32-bit word, the type of a packed tag. */
  type Word32 = x: int | 0 <= x < 0x1_0000_0000

  /** The largest value of a 64-bit `size_t`; the C interface returns it to
      signal a format error, so no successful result may reach it. */
  const SIZE_MAX: nat := 0xFFFF_FFFF_FFFF_FFFF

  /** A value of the platform size type. */
  type Size = n: int | 0 <= n <= SIZE_MAX

  /** Every operation either succeeds or fails with the single error kind of
      the codec, a format error. */
  datatype Result<T> = Ok(value: T) | FormatError

  /** A decoded field: the decoded item and the number of octets read. */
  datatype Field<T> = Field(item: T, size: nat)

  function Pow(base: nat, k: nat): (p: nat)
    ensures base > 0 ==> p > 0
  {
    if k == 0 then 1 else base * Pow(base, k - 1)
  }

  // Facts about cutting and joining octet strings, stated without any
  // codec function in scope so that they stay cheap to use.

  lemma JoinFields(s: seq<Octet>, a: nat, b: nat, x: seq<Octet>, y: seq<Octet>)
    requires a + b <= |s| && s[..a] == x && s[a..][..b] == y
    ensures s[..a + b] == x + y
  {
    assert s[..a + b] == s[..a] + s[a..][..b];
  }

  /** The fields of a buffer that starts with t, l and v, read back from
      its first count octets. */
  lemma SplitFields(der: seq<Octet>, count: nat, t: seq<Octet>, l: seq<Octet>, v: seq<Octet>)
    requires |t| + |l| + |v| <= count <= |der| && der[..|t| + |l| + |v|] == t + l + v
    ensures |t| <= count && der[..count][..|t|] == t
    ensures |l| <= count - |t| && der[..count][|t|..][..|l|] == l
  {
    var n := |t| + |l| + |v|;
    assert der[..count][..|t|] == der[..n][..|t|];
    assert der[..count][|t|..][..|l|] == der[..n][|t|..|t| + |l|];
  }
}
