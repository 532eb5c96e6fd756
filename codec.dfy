/** Encoding and decoding of whole DER records (derEncode, derDecode,
    derDecode2).

    derEncode works in two modes: with no output buffer it only reports the
    size of the record (EncodeSize, which never looks at the value), and
    with a buffer it also writes the record octet by octet (Encode).
    derDecode copies the value into a caller buffer (Decode); derDecode2
    reports where the value lies inside the input (Decode2). */
module DerCodec {
  import opened Octets
  import opened DerTag
  import opened DerLength
  import opened DerValidator

  // ---------------------------------------------------------------------
  // Sizes of the fields, counted directly from the numbers.

  /** The number of base-128 digits of n (at least one). */
  function Digits128(n: nat): (k: nat)
    ensures k >= 1
  {
    if n < 128 then 1 else 1 + Digits128(n / 128)
  }

  /** The number of base-256 digits of n (at least one). */
  function Digits256(n: nat): (k: nat)
    ensures k >= 1
  {
    if n < 256 then 1 else 1 + Digits256(n / 256)
  }

  /** The number of tag octets of a valid tag. */
  function TagSize(tag: Word32): (k: nat)
    requires ValidTag(tag)
  {
    if tag % 32 != ESCAPE then 1 else 1 + Digits128(tag / 256)
  }

  /** The number of length octets of a length. */
  function LengthSize(len: Size): (k: nat) {
    if len < 128 then 1 else 1 + Digits256(len)
  }

  lemma {:induction false} HighGroupsCount(m: nat)
    ensures |HighGroups(m)| == if m == 0 then 0 else Digits128(m)
  {
    if m > 0 {
      HighGroupsCount(m / 128);
    }
  }

  lemma {:induction false} MinimalOctetsCount(n: nat)
    ensures |MinimalOctets(n)| == if n == 0 then 0 else Digits256(n)
  {
    if n > 0 {
      MinimalOctetsCount(n / 256);
    }
  }

  /** The counted number of tag octets is the size of the encoding. */
  lemma TagSizeIsEncodedSize(tag: Word32)
    requires ValidTag(tag)
    ensures TagSize(tag) == |EncodeTag(tag)|
  {
    if tag % 32 == ESCAPE {
      HighGroupsCount(tag / 256 / 128);
    }
  }

  /** The counted number of length octets is the size of the encoding. */
  lemma LengthSizeIsEncodedSize(len: Size)
    ensures LengthSize(len) == |EncodeLength(len)|
  {
    if len >= 128 {
      MinimalOctetsCount(len);
    }
  }

  /** derEncode without an output buffer: the size of the record of a tag
      and of a value of len octets.  An invalid tag is a format error, and
      so is a record too long to be counted below SIZE_MAX. */
  function EncodeSize(tag: Word32, len: Size): (r: Result<Size>)
    ensures !ValidTag(tag) ==> r.FormatError?
    ensures r.Ok? ==> r.value < SIZE_MAX && r.value > len
  {
    if !ValidTag(tag) then FormatError
    else
      var n := TagSize(tag) + LengthSize(len) + len;
      if n >= SIZE_MAX then FormatError else Ok(n)
  }

  /** The size query agrees with the record that a writing call produces. */
  lemma EncodeSizeIsRecordSize(tag: Word32, value: seq<Octet>)
    requires |value| <= SIZE_MAX
    ensures EncodeSize(tag, |value|)
            == if ValidTag(tag) && |Record(tag, value)| < SIZE_MAX
               then Ok(|Record(tag, value)|) else FormatError
  {
    if ValidTag(tag) {
      TagSizeIsEncodedSize(tag);
      LengthSizeIsEncodedSize(|value|);
    }
  }

  // ---------------------------------------------------------------------
  // derEncode with an output buffer.

  /** Writes the marked digits of m at der[start..], the most significant
      first. */
  method WriteHighGroups(der: array<Octet>, start: nat, m: nat) returns (end: nat)
    requires start + |HighGroups(m)| <= der.Length
    modifies der
    ensures end == start + |HighGroups(m)|
    ensures der[start..end] == HighGroups(m)
    ensures forall j :: 0 <= j < der.Length && !(start <= j < end) ==> der[j] == old(der[j])
    decreases m
  {
    if m == 0 {
      return start;
    }
    ghost var high := HighGroups(m / 128);
    assert HighGroups(m) == high + [128 + m % 128];
    var last := WriteHighGroups(der, start, m / 128);
    ghost var written := der[start..last];
    der[last] := 128 + m % 128;
    end := last + 1;
    assert der[start..end] == written + [128 + m % 128];
  }

  /** Writes the base-256 digits of n at der[start..], the most significant
      first. */
  method WriteMinimalOctets(der: array<Octet>, start: nat, n: nat) returns (end: nat)
    requires start + |MinimalOctets(n)| <= der.Length
    modifies der
    ensures end == start + |MinimalOctets(n)|
    ensures der[start..end] == MinimalOctets(n)
    ensures forall j :: 0 <= j < der.Length && !(start <= j < end) ==> der[j] == old(der[j])
    decreases n
  {
    if n == 0 {
      return start;
    }
    ghost var high := MinimalOctets(n / 256);
    assert MinimalOctets(n) == high + [n % 256];
    var last := WriteMinimalOctets(der, start, n / 256);
    ghost var written := der[start..last];
    der[last] := n % 256;
    end := last + 1;
    assert der[start..end] == written + [n % 256];
  }

  /** Writes the tag octets of tag at der[pos..]. */
  method WriteTag(der: array<Octet>, pos: nat, tag: Word32) returns (next: nat)
    requires ValidTag(tag) && pos + TagSize(tag) <= der.Length
    modifies der
    ensures next == pos + TagSize(tag)
    ensures der[pos..next] == EncodeTag(tag)
    ensures forall i :: 0 <= i < der.Length && !(pos <= i < next) ==> der[i] == old(der[i])
  {
    TagSizeIsEncodedSize(tag);
    if tag % 32 != ESCAPE {
      der[pos] := tag;
      assert der[pos..pos + 1] == [tag];
      return pos + 1;
    }
    next := WriteLongTag(der, pos, tag % 256, tag / 256);
  }

  /** Writes the first octet of a long tag and then the octets of its
      number n. */
  method WriteLongTag(der: array<Octet>, pos: nat, first: Octet, n: nat) returns (next: nat)
    requires n > 0 && pos + 1 + |NumberOctets(n)| <= der.Length
    modifies der
    ensures next == pos + 1 + |NumberOctets(n)|
    ensures der[pos..next] == [first] + NumberOctets(n)
    ensures forall i :: 0 <= i < der.Length && !(pos <= i < next) ==> der[i] == old(der[i])
  {
    der[pos] := first;
    next := WriteNumberOctets(der, pos + 1, n);
    assert der[pos..next] == [first] + der[pos + 1..next];
  }

  /** Writes the octets of a long tag number n at der[start..]. */
  method WriteNumberOctets(der: array<Octet>, start: nat, n: nat) returns (end: nat)
    requires n > 0 && start + |NumberOctets(n)| <= der.Length
    modifies der
    ensures end == start + |NumberOctets(n)|
    ensures der[start..end] == NumberOctets(n)
    ensures forall i :: 0 <= i < der.Length && !(start <= i < end) ==> der[i] == old(der[i])
  {
    ghost var high := HighGroups(n / 128);
    assert NumberOctets(n) == high + [n % 128];
    var last := WriteHighGroups(der, start, n / 128);
    ghost var written := der[start..last];
    der[last] := n % 128;
    end := last + 1;
    assert der[start..end] == written + [n % 128];
  }

  /** Writes the length octets of len at der[pos..]. */
  method WriteLength(der: array<Octet>, pos: nat, len: Size) returns (next: nat)
    requires pos + LengthSize(len) <= der.Length
    modifies der
    ensures next == pos + LengthSize(len)
    ensures der[pos..next] == EncodeLength(len)
    ensures forall i :: 0 <= i < der.Length && !(pos <= i < next) ==> der[i] == old(der[i])
  {
    LengthSizeIsEncodedSize(len);
    if len < 128 {
      der[pos] := len;
      assert der[pos..pos + 1] == [len];
      return pos + 1;
    }
    EncodeLengthForm(len);
    MinimalOctetsCount(len);
    next := WriteLongLength(der, pos, 128 + Digits256(len), len);
  }

  /** Writes the first octet of a long length and then the octets of the
      length n. */
  method WriteLongLength(der: array<Octet>, pos: nat, first: Octet, n: nat) returns (next: nat)
    requires pos + 1 + |MinimalOctets(n)| <= der.Length
    modifies der
    ensures next == pos + 1 + |MinimalOctets(n)|
    ensures der[pos..next] == [first] + MinimalOctets(n)
    ensures forall i :: 0 <= i < der.Length && !(pos <= i < next) ==> der[i] == old(der[i])
  {
    der[pos] := first;
    next := WriteMinimalOctets(der, pos + 1, n);
    assert der[pos..next] == [first] + der[pos + 1..next];
  }

  /** Copies value unchanged to der[pos..]. */
  method WriteValue(der: array<Octet>, pos: nat, value: seq<Octet>)
    requires pos + |value| <= der.Length
    modifies der
    ensures der[pos..pos + |value|] == value
    ensures forall i :: 0 <= i < der.Length && !(pos <= i < pos + |value|) ==> der[i] == old(der[i])
  {
    var j := 0;
    while j < |value|
      invariant 0 <= j <= |value|
      invariant der[pos..pos + j] == value[..j]
      invariant forall i :: 0 <= i < der.Length && !(pos <= i < pos + j) ==> der[i] == old(der[i])
    {
      der[pos + j] := value[j];
      j := j + 1;
    }
  }

  /** Writes the tag and length octets of a record at the start of der. */
  method WriteHeader(der: array<Octet>, tag: Word32, len: Size) returns (b: nat)
    requires ValidTag(tag) && TagSize(tag) + LengthSize(len) <= der.Length
    modifies der
    ensures b == TagSize(tag) + LengthSize(len)
    ensures der[..b] == EncodeTag(tag) + EncodeLength(len)
    ensures forall i :: b <= i < der.Length ==> der[i] == old(der[i])
  {
    var a := WriteTag(der, 0, tag);
    ghost var t := der[0..a];
    b := WriteLength(der, a, len);
    assert der[0..a] == t;
    assert der[..b] == der[0..a] + der[a..b];
  }

  /** Writes the record of tag and value at the start of der. */
  method WriteRecord(der: array<Octet>, tag: Word32, value: seq<Octet>) returns (n: nat)
    requires ValidTag(tag) && |value| <= SIZE_MAX
    requires TagSize(tag) + LengthSize(|value|) + |value| <= der.Length
    modifies der
    ensures n == TagSize(tag) + LengthSize(|value|) + |value|
    ensures der[..n] == Record(tag, value)
    ensures forall i :: n <= i < der.Length ==> der[i] == old(der[i])
  {
    var b := WriteHeader(der, tag, |value|);
    ghost var h := der[..b];
    WriteValue(der, b, value);
    n := b + |value|;
    assert der[..b] == h;
    assert der[..n] == der[..b] + der[b..n];
  }

  /** derEncode with an output buffer: on success der starts with the
      record of tag and value and nothing after it is touched; on a format
      error nothing is written. */
  method Encode(der: array<Octet>, tag: Word32, value: seq<Octet>) returns (r: Result<Size>)
    requires |value| <= SIZE_MAX
    requires EncodeSize(tag, |value|).Ok? ==> EncodeSize(tag, |value|).value <= der.Length
    modifies der
    ensures r == EncodeSize(tag, |value|)
    ensures r.Ok? ==> ValidTag(tag) && der[..r.value] == Record(tag, value)
    ensures r.Ok? ==> der[r.value..] == old(der[r.value..])
    ensures r.Ok? ==> IsValid2(der[..], r.value, tag)
    ensures r.FormatError? ==> der[..] == old(der[..])
  {
    r := EncodeSize(tag, |value|);
    if r.FormatError? {
      return;
    }
    var n := WriteRecord(der, tag, value);
    assert der[n..] == old(der[n..]);
    EncodedIsValid(der[..], tag, value, n);
  }

  /** A buffer that starts with the record the size query counted holds a
      valid record of that size with that tag. */
  lemma EncodedIsValid(der: seq<Octet>, tag: Word32, value: seq<Octet>, n: nat)
    requires |value| <= SIZE_MAX && EncodeSize(tag, |value|) == Ok(n)
    requires n <= |der| && ValidTag(tag) && der[..n] == Record(tag, value)
    ensures IsValid2(der, n, tag)
  {
    EncodeSizeIsRecordSize(tag, value);
    RecordSizeComplete(der, n, tag, value, n - |value|, n);
  }

  // ---------------------------------------------------------------------
  // derDecode2 and derDecode.

  /** derDecode2: the tag, the value length and the offset of the value
      inside der, when der holds exactly one record of count octets. */
  function Decode2(der: seq<Octet>, count: Size): (r: Result<Header>)
    requires count <= |der|
    ensures r.Ok? <==> IsValid(der, count)
    ensures r.Ok? ==> r.value.offset + r.value.len == count
  {
    if IsValid(der, count) then ParseHeader(der, count) else FormatError
  }

  /** What a successful derDecode2 reports is the record it was handed: the
      octets before the offset are the canonical header of the tag and the
      length, and the value is the rest. */
  lemma Decode2IsRecord(der: seq<Octet>, count: Size)
    requires count <= |der| && Decode2(der, count).Ok?
    ensures var h := Decode2(der, count).value;
      && der[..h.offset] == EncodeTag(h.tag) + EncodeLength(h.len)
      && der[..count] == Record(h.tag, der[h.offset..count])
  {
    ParseHeaderCanonical(der, count);
    ValidIsRecord(der, count);
  }

  /** Round trip: decoding a record gives back its tag, the length of its
      value and the offset at which the value starts. */
  lemma Decode2Record(tag: Word32, value: seq<Octet>)
    requires ValidTag(tag) && |value| <= SIZE_MAX && |Record(tag, value)| < SIZE_MAX
    ensures var rec := Record(tag, value);
      Decode2(rec, |rec|) == Ok(Header(tag, |value|, |rec| - |value|))
  {
    var rec := Record(tag, value);
    assert rec[..|rec|] == rec;
    RecordIsValid(tag, value);
    RecordSizeComplete(rec, |rec|, tag, value, |rec| - |value|, |rec|);
  }

  /** The result of derDecode: the decoded tag and the value length. */
  datatype Decoded = Decoded(tag: Word32, len: Size)

  /** derDecode: when der holds exactly one record of count octets, copies
      its value to the start of value and returns the tag and the value
      length; otherwise a format error that writes nothing. */
  method Decode(der: seq<Octet>, count: Size, value: array<Octet>) returns (r: Result<Decoded>)
    requires count <= |der|
    requires Decode2(der, count).Ok? ==> Decode2(der, count).value.len <= value.Length
    modifies value
    ensures r.Ok? <==> IsValid(der, count)
    ensures r.Ok? ==> var h := Decode2(der, count).value;
      && r.value == Decoded(h.tag, h.len)
      && value[..h.len] == der[h.offset..count]
      && der[..count] == Record(h.tag, value[..h.len])
      && value[h.len..] == old(value[h.len..])
    ensures r.FormatError? ==> value[..] == old(value[..])
  {
    var h := Decode2(der, count);
    if h.FormatError? {
      return FormatError;
    }
    var offset, len := h.value.offset, h.value.len;
    CopyValue(der, offset, len, value);
    Decode2IsRecord(der, count);
    r := Ok(Decoded(h.value.tag, len));
  }

  /** Copies der[offset..offset + len] to the start of value and touches
      nothing after it. */
  method CopyValue(der: seq<Octet>, offset: nat, len: nat, value: array<Octet>)
    requires offset + len <= |der| && len <= value.Length
    modifies value
    ensures value[..len] == der[offset..offset + len]
    ensures value[len..] == old(value[len..])
  {
    var j := 0;
    while j < len
      invariant 0 <= j <= len
      invariant forall i :: 0 <= i < j ==> value[i] == der[offset + i]
      invariant forall i :: len <= i < value.Length ==> value[i] == old(value[i])
    {
      value[j] := der[offset + j];
      j := j + 1;
    }
  }

  // ---------------------------------------------------------------------
  // The codec as a whole.

  /** Encodes tag and value into a buffer of the queried size, then decodes
      the buffer into a buffer of the decoded length: the tag and the value
      come back exactly, and an invalid tag fails at the size query. */
  method EncodeThenDecode(tag: Word32, value: seq<Octet>) returns (r: Result<(Word32, seq<Octet>)>)
    requires |value| <= SIZE_MAX
    ensures EncodeSize(tag, |value|).FormatError? ==> r.FormatError?
    ensures EncodeSize(tag, |value|).Ok? ==> r == Ok((tag, value))
  {
    var size := EncodeSize(tag, |value|);
    if size.FormatError? {
      return FormatError;
    }
    var der := new Octet[size.value];
    var e := Encode(der, tag, value);
    var rec := der[..];
    EncodeSizeIsRecordSize(tag, value);
    assert rec == Record(tag, value);
    Decode2Record(tag, value);
    var buf := new Octet[|value|];
    var d := Decode(rec, e.value, buf);
    r := Ok((d.value.tag, buf[..d.value.len]));
  }
}
