/** The length field (L) of a DER record.

    A length below 128 is one octet holding it (short form).  A larger
    length is the octet 0x80 | r followed by r big-endian octets of the
    length, the first of them non-zero (long form with the minimum number of
    octets).  The indefinite form (the octet 0x80 alone), the reserved first
    octet 0xFF, a long form for a length below 128, a long form with a zero
    leading octet and a length beyond SIZE_MAX are all format errors. */
module DerLength {
  import opened Octets

  const INDEFINITE: nat := 0x80
  const RESERVED: nat := 0xFF

  /** The big-endian base-256 value of the octets. */
  function Value256(s: seq<Octet>): (v: nat) {
    if s == [] then 0 else Value256(s[..|s| - 1]) * 256 + s[|s| - 1]
  }

  /** The base-256 digits of n, most significant first. */
  function MinimalOctets(n: nat): (r: seq<Octet>) {
    if n == 0 then [] else MinimalOctets(n / 256) + [n % 256]
  }

  /** The digits of n give back n and have no leading zero octet. */
  lemma {:induction false} MinimalOctetsForm(n: nat)
    ensures var r := MinimalOctets(n);
      && Value256(r) == n
      && (n == 0) == (r == [])
      && (n > 0 ==> r[0] != 0)
  {
    if n > 0 {
      MinimalOctetsForm(n / 256);
      var r := MinimalOctets(n);
      assert r[..|r| - 1] == MinimalOctets(n / 256);
    }
  }

  lemma {:induction false} MinimalOctetsLength(n: nat, k: nat)
    requires n < Pow(256, k)
    ensures |MinimalOctets(n)| <= k
  {
    if n > 0 {
      MinimalOctetsLength(n / 256, k - 1);
    }
  }

  lemma {:induction false} Value256Positive(o: seq<Octet>)
    requires |o| >= 1 && o[0] != 0
    ensures Value256(o) >= 1
  {
    if |o| > 1 {
      Value256Positive(o[..|o| - 1]);
    }
  }

  /** Octets without a leading zero are the minimal octets of their value. */
  lemma {:induction false} MinimalOctetsUnique(o: seq<Octet>)
    requires |o| >= 1 ==> o[0] != 0
    ensures o == MinimalOctets(Value256(o))
  {
    if o != [] {
      var init := o[..|o| - 1];
      var n := Value256(o);
      Value256Positive(o);
      assert n / 256 == Value256(init) && n % 256 == o[|o| - 1];
      MinimalOctetsUnique(init);
      assert o == init + [o[|o| - 1]];
    }
  }

  /** Octets without a leading zero have a value of at least 256^(r-1). */
  lemma {:induction false} Value256Lower(o: seq<Octet>)
    requires |o| >= 1 && o[0] != 0
    ensures Value256(o) >= Pow(256, |o| - 1)
  {
    if |o| > 1 {
      Value256Lower(o[..|o| - 1]);
    }
  }

  /** The canonical length octets of a length. */
  function EncodeLength(len: Size): (r: seq<Octet>)
    ensures (|r| == 1) == (len < 128) && 1 <= |r| <= 9
  {
    if len < 128 then [len]
    else
      var digits := MinimalOctets(len);
      MinimalOctetsLength(len, 8);
      [128 + |digits|] + digits
  }

  /** The short form below 128; otherwise the long form, whose first octet
      gives the number of at most eight big-endian octets that follow, the
      first of them non-zero. */
  lemma EncodeLengthForm(len: Size)
    ensures var r := EncodeLength(len);
      && (len < 128 ==> r == [len])
      && (len >= 128 ==> 2 <= |r| <= 9 && r[0] == 128 + (|r| - 1)
                         && r[1] != 0 && Value256(r[1..]) == len)
  {
    if len >= 128 {
      MinimalOctetsLength(len, 8);
      MinimalOctetsForm(len);
      assert EncodeLength(len)[1..] == MinimalOctets(len);
    }
  }

  /** Reads the octets s[i..end] as the low digits of a big-endian number
      whose higher digits have the value acc. */
  function ReadLength(s: seq<Octet>, i: nat, end: nat, acc: nat): (v: nat)
    requires i <= end <= |s|
    decreases end - i
  {
    if i == end then acc else ReadLength(s, i + 1, end, acc * 256 + s[i])
  }

  /** Reading octets gives their big-endian value. */
  lemma {:induction false} ReadLengthValue(s: seq<Octet>, start: nat, i: nat, end: nat)
    requires start <= i <= end <= |s|
    ensures ReadLength(s, i, end, Value256(s[start..i])) == Value256(s[start..end])
    decreases end - i
  {
    if i < end {
      assert s[start..i + 1][..i - start] == s[start..i];
      ReadLengthValue(s, start, i + 1, end);
    }
  }

  /** The long form reads the value of the octets after the first. */
  lemma LongFormValue(s: seq<Octet>, end: nat)
    requires 1 <= end <= |s|
    ensures ReadLength(s, 1, end, 0) == Value256(s[1..end])
  {
    assert s[1..1] == [];
    ReadLengthValue(s, 1, 1, end);
  }

  /** Decodes the length field at the start of s. */
  function DecodeLength(s: seq<Octet>): (r: Result<Field<Size>>)
    ensures r.Ok? ==> 1 <= r.value.size <= |s|
  {
    if |s| == 0 then FormatError
    else if s[0] < 128 then Ok(Field(s[0], 1))
    else if s[0] == INDEFINITE || s[0] == RESERVED then FormatError
    else
      var count := s[0] - 128;
      if |s| < 1 + count then FormatError
      else if s[1] == 0 then FormatError
      else
        var len := ReadLength(s, 1, 1 + count, 0);
        if len < 128 || len > SIZE_MAX then FormatError
        else Ok(Field(len, 1 + count))
  }

  /** Decoding the encoding of a length gives back the length and consumes
      exactly its octets, whatever follows them. */
  lemma DecodeEncodeLength(len: Size, rest: seq<Octet>)
    ensures DecodeLength(EncodeLength(len) + rest) == Ok(Field(len, |EncodeLength(len)|))
  {
    var e := EncodeLength(len);
    var s := e + rest;
    EncodeLengthForm(len);
    if len >= 128 {
      assert s[1..|e|] == e[1..];
      LongFormValue(s, |e|);
    }
  }

  /** Canonical uniqueness: whatever octets decode to a length begin with the
      encoding of that length, so no other octet sequence decodes to it. */
  lemma DecodedLengthIsCanonical(s: seq<Octet>)
    requires DecodeLength(s).Ok?
    ensures var f := DecodeLength(s).value; s[..f.size] == EncodeLength(f.item)
  {
    var f := DecodeLength(s).value;
    if s[0] >= 128 {
      var digits := s[1..f.size];
      LongFormValue(s, f.size);
      MinimalOctetsUnique(digits);
      assert EncodeLength(f.item) == [s[0]] + digits;
      assert s[..f.size] == [s[0]] + digits;
    }
  }

  /** The forms of the length field that DER rejects. */
  lemma RejectedLengthForms(s: seq<Octet>)
    requires |s| >= 1
    ensures s[0] == INDEFINITE ==> DecodeLength(s).FormatError?
    ensures s[0] == RESERVED ==> DecodeLength(s).FormatError?
    ensures s[0] > 128 && |s| >= s[0] - 127 && Value256(s[1..s[0] - 127]) < 128
            ==> DecodeLength(s).FormatError?
    ensures s[0] > 128 && |s| >= 2 && s[1] == 0 ==> DecodeLength(s).FormatError?
    ensures s[0] > 128 && |s| >= s[0] - 127 && Value256(s[1..s[0] - 127]) > SIZE_MAX
            ==> DecodeLength(s).FormatError?
  {
    if s[0] > 128 && |s| >= s[0] - 127 {
      LongFormValue(s, s[0] - 127);
    }
  }

  /** A long form of more than eight octets always exceeds SIZE_MAX, so a
      decoded long form has at most eight length octets. */
  lemma DecodedLengthOctets(s: seq<Octet>)
    requires DecodeLength(s).Ok?
    ensures DecodeLength(s).value.size <= 9
  {
    var f := DecodeLength(s).value;
    if f.size > 9 {
      LongFormValue(s, f.size);
      Value256Lower(s[1..f.size]);
      PowMonotone(256, 8, f.size - 2);
      assert false;
    }
  }

  lemma {:induction false} PowMonotone(b: nat, j: nat, k: nat)
    requires b >= 1 && j <= k
    ensures Pow(b, j) <= Pow(b, k)
  {
    if j < k {
      PowMonotone(b, j, k - 1);
    }
  }
}
