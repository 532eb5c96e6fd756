/** Structural validation of DER records (derSize, derIsValid, derIsValid2).

    A record is the tag octets, the length octets and exactly L value
    octets.  The validator decodes T and L from the start of a buffer whose
    first `count` octets may be read and checks that the whole record lies
    within them; the content of V is never inspected. */
module DerValidator {
  import opened Octets
  import opened DerTag
  import opened DerLength

  /** The reference definition of a record: the canonical TLV octets of a
      valid tag and a value. */
  function Record(tag: Word32, value: seq<Octet>): (r: seq<Octet>)
    requires ValidTag(tag) && |value| <= SIZE_MAX
    ensures |r| >= 2 + |value| && r[|r| - |value|..] == value
  {
    EncodeTag(tag) + EncodeLength(|value|) + value
  }

  /** What decoding T and L yields: the tag, the value length and the
      offset of the value, that is the number of header octets. */
  datatype Header = Header(tag: Word32, len: Size, offset: nat)

  /** Decodes T and then L from the first count octets of der. */
  function ParseHeader(der: seq<Octet>, count: Size): (r: Result<Header>)
    requires count <= |der|
    ensures r.Ok? ==> ValidTag(r.value.tag) && r.value.offset <= count
  {
    var s := der[..count];
    var t := DecodeTag(s);
    if t.FormatError? then FormatError
    else
      var l := DecodeLength(s[t.value.size..]);
      if l.FormatError? then FormatError
      else Ok(Header(t.value.item, l.value.item, t.value.size + l.value.size))
  }

  /** The decoded header octets are the canonical encodings of the tag and
      the length they decode to. */
  lemma ParseHeaderCanonical(der: seq<Octet>, count: Size)
    requires count <= |der| && ParseHeader(der, count).Ok?
    ensures var h := ParseHeader(der, count).value;
      der[..h.offset] == EncodeTag(h.tag) + EncodeLength(h.len)
  {
    var s := der[..count];
    var t := DecodeTag(s).value;
    var l := DecodeLength(s[t.size..]).value;
    HeaderIsCanonical(der, count, t, l);
  }

  lemma HeaderIsCanonical(der: seq<Octet>, count: Size, t: Field<Word32>, l: Field<Size>)
    requires count <= |der|
    requires DecodeTag(der[..count]) == Ok(t)
    requires DecodeLength(der[..count][t.size..]) == Ok(l)
    ensures der[..t.size + l.size] == EncodeTag(t.item) + EncodeLength(l.item)
  {
    var s := der[..count];
    DecodedTagIsCanonical(s);
    DecodedLengthIsCanonical(s[t.size..]);
    JoinFields(s, t.size, l.size, EncodeTag(t.item), EncodeLength(l.item));
    assert der[..t.size + l.size] == s[..t.size + l.size];
  }

  lemma ParseHeaderOf(der: seq<Octet>, count: Size, tag: Word32, len: Size, a: nat, b: nat, offset: nat)
    requires count <= |der| && offset == a + b
    requires DecodeTag(der[..count]) == Ok(Field(tag, a))
    requires DecodeLength(der[..count][a..]) == Ok(Field(len, b))
    ensures ParseHeader(der, count) == Ok(Header(tag, len, offset))
  {
  }

  /** derSize: the exact size of the record at the start of der, when its
      T and L are well formed and it fits in count octets. */
  function RecordSize(der: seq<Octet>, count: Size): (r: Result<Size>)
    requires count <= |der|
    ensures r.Ok? ==> r.value <= count && r.value < SIZE_MAX
  {
    match ParseHeader(der, count)
    case FormatError => FormatError
    case Ok(h) =>
      if h.offset + h.len > count || h.offset + h.len == SIZE_MAX then FormatError
      else Ok(h.offset + h.len)
  }

  /** derIsValid: der holds exactly one record of count octets. */
  predicate IsValid(der: seq<Octet>, count: Size)
    requires count <= |der|
    ensures IsValid(der, count) ==> 2 <= count < SIZE_MAX
  {
    RecordSize(der, count) == Ok(count)
  }

  /** derIsValid2: der holds exactly one record of count octets, with the
      given tag. */
  predicate IsValid2(der: seq<Octet>, count: Size, tag: Word32)
    requires count <= |der|
    ensures IsValid2(der, count, tag) ==> IsValid(der, count) && ValidTag(tag)
  {
    IsValid(der, count) && ParseHeader(der, count).value.tag == tag
  }

  // ---------------------------------------------------------------------
  // What the validator accepts is exactly the records.

  /** A successful size names a prefix of der that is the record of the
      decoded tag and of the octets that follow the header. */
  lemma RecordSizeSound(der: seq<Octet>, count: Size)
    requires count <= |der| && RecordSize(der, count).Ok?
    ensures var h := ParseHeader(der, count).value; var n := RecordSize(der, count).value;
      && n == h.offset + h.len
      && der[..n] == Record(h.tag, der[h.offset..n])
  {
    var h := ParseHeader(der, count).value;
    var n := RecordSize(der, count).value;
    ParseHeaderCanonical(der, count);
    assert der[..n] == der[..h.offset] + der[h.offset..n];
  }

  /** Any buffer that starts with a record fitting count octets has that
      record's size, and its header decodes to the record's tag and length. */
  lemma RecordSizeComplete(der: seq<Octet>, count: Size, tag: Word32, value: seq<Octet>, offset: nat, size: nat)
    requires ValidTag(tag) && |value| <= SIZE_MAX
    requires size == |Record(tag, value)| && offset == size - |value|
    requires size <= count <= |der| && size < SIZE_MAX
    requires der[..size] == Record(tag, value)
    ensures ParseHeader(der, count) == Ok(Header(tag, |value|, offset))
    ensures RecordSize(der, count) == Ok(size)
  {
    var a, b := |EncodeTag(tag)|, |EncodeLength(|value|)|;
    RecordHeader(der, count, tag, value, a, b, offset);
    RecordSizeOf(der, count, Header(tag, |value|, offset), size);
  }

  lemma RecordSizeOf(der: seq<Octet>, count: Size, h: Header, n: nat)
    requires count <= |der| && ParseHeader(der, count) == Ok(h)
    requires n == h.offset + h.len && n <= count && n < SIZE_MAX
    ensures RecordSize(der, count) == Ok(n)
  {
  }

  lemma RecordHeader(der: seq<Octet>, count: Size, tag: Word32, value: seq<Octet>, a: nat, b: nat, offset: nat)
    requires ValidTag(tag) && |value| <= SIZE_MAX
    requires a == |EncodeTag(tag)| && b == |EncodeLength(|value|)| && offset == a + b
    requires |Record(tag, value)| <= count <= |der|
    requires der[..|Record(tag, value)|] == Record(tag, value)
    ensures ParseHeader(der, count) == Ok(Header(tag, |value|, offset))
  {
    var t := EncodeTag(tag);
    var l := EncodeLength(|value|);
    var s := der[..count];
    SplitFields(der, count, t, l, value);
    TagPrefixDecodes(s, tag, t);
    LengthPrefixDecodes(s[a..], |value|, l);
    ParseHeaderOf(der, count, tag, |value|, a, b, offset);
  }

  /** Decoding T from octets that start with the encoding t of a tag. */
  lemma TagPrefixDecodes(s: seq<Octet>, tag: Word32, t: seq<Octet>)
    requires ValidTag(tag) && t == EncodeTag(tag)
    requires |t| <= |s| && s[..|t|] == t
    ensures DecodeTag(s) == Ok(Field(tag, |t|))
  {
    assert s == t + s[|t|..];
    DecodeEncodeTag(tag, s[|t|..]);
  }

  /** Decoding L from octets that start with the encoding l of a length. */
  lemma LengthPrefixDecodes(s: seq<Octet>, len: Size, l: seq<Octet>)
    requires l == EncodeLength(len)
    requires |l| <= |s| && s[..|l|] == l
    ensures DecodeLength(s) == Ok(Field(len, |l|))
  {
    assert s == l + s[|l|..];
    DecodeEncodeLength(len, s[|l|..]);
  }

  /** count is only an upper bound: every bound at least the record's size
      gives the same size, and every smaller bound is a format error. */
  lemma RecordSizeBound(der: seq<Octet>, count: Size, other: Size)
    requires count <= |der| && other <= |der| && RecordSize(der, count).Ok?
    ensures other >= RecordSize(der, count).value ==> RecordSize(der, other) == RecordSize(der, count)
    ensures other < RecordSize(der, count).value ==> RecordSize(der, other).FormatError?
  {
    var h := ParseHeader(der, count).value;
    var n := RecordSize(der, count).value;
    RecordSizeSound(der, count);
    var v := der[h.offset..n];
    if other >= n {
      RecordSizeComplete(der, other, h.tag, v, h.offset, n);
    } else if RecordSize(der, other).Ok? {
      var h' := ParseHeader(der, other).value;
      var m := RecordSize(der, other).value;
      RecordSizeSound(der, other);
      RecordSizeComplete(der, count, h'.tag, der[h'.offset..m], h'.offset, m);
      assert false;
    }
  }

  /** derIsValid accepts exactly the records: a valid buffer is the record
      of its decoded tag and value ... */
  lemma ValidIsRecord(der: seq<Octet>, count: Size)
    requires count <= |der| && IsValid(der, count)
    ensures var h := ParseHeader(der, count).value;
      && h.offset + h.len == count
      && der[..count] == Record(h.tag, der[h.offset..count])
  {
    RecordSizeSound(der, count);
  }

  /** ... and every record below SIZE_MAX octets is valid, with its own tag. */
  lemma RecordIsValid(tag: Word32, value: seq<Octet>)
    requires ValidTag(tag) && |value| <= SIZE_MAX && |Record(tag, value)| < SIZE_MAX
    ensures IsValid(Record(tag, value), |Record(tag, value)|)
    ensures IsValid2(Record(tag, value), |Record(tag, value)|, tag)
  {
    var rec := Record(tag, value);
    assert rec[..|rec|] == rec;
    RecordSizeComplete(rec, |rec|, tag, value, |rec| - |value|, |rec|);
  }

  /** Truncation: a valid buffer is valid for one count only; in particular
      dropping its last octet makes it invalid. */
  lemma ValidCountUnique(der: seq<Octet>, count: Size, other: Size)
    requires count <= |der| && other <= |der| && IsValid(der, count)
    ensures IsValid(der, other) <==> other == count
  {
    RecordSizeBound(der, count, other);
  }

  /** The tag filter: derIsValid2 holds of exactly one tag, the decoded one,
      and that tag is valid. */
  lemma IsValid2Tag(der: seq<Octet>, count: Size, tag: Word32, other: Word32)
    requires count <= |der| && IsValid2(der, count, tag)
    ensures ValidTag(tag)
    ensures IsValid2(der, count, other) <==> other == tag
  {
  }
}
