/** Concrete encodings at the boundaries of the forms, as X.690 lays them
    out: the last short length and the first long one, the last short tag
    number and the first long one, and the forms DER rejects. */
module DerVectors {
  import opened Octets
  import opened DerTag
  import opened DerLength
  import opened DerValidator
  import opened DerCodec

  lemma LengthVectors()
    ensures EncodeLength(0) == [0] && EncodeLength(127) == [127]
    ensures EncodeLength(128) == [0x81, 0x80]
    ensures EncodeLength(256) == [0x82, 0x01, 0x00]
    ensures DecodeLength([0x81, 0x80, 0x05]) == Ok(Field(128, 2))
    ensures DecodeLength([0x80]).FormatError? && DecodeLength([0xFF, 0x01]).FormatError?
    ensures DecodeLength([0x81, 0x7F]).FormatError?
    ensures DecodeLength([0x82, 0x00, 0x80]).FormatError?
  {
    assert ReadLength([0x81, 0x7F], 1, 2, 0) == 0x7F;
  }

  lemma TagVectors()
    ensures EncodeTag(0x30) == [0x30] && EncodeTag(0x5E) == [0x5E]
    ensures EncodeTag(0x1F1F) == [0x1F, 0x1F]
    ensures EncodeTag(0x801F) == [0x1F, 0x81, 0x00]
    ensures DecodeTag([0x3F, 0x81, 0x00, 0x05]) == Ok(Field(0x803F, 3))
    ensures DecodeTag([0x1F, 0x1E]).FormatError?
    ensures DecodeTag([0x1F, 0x80, 0x1F]).FormatError?
    ensures !ValidTag(0x1F) && !ValidTag(0x130)
  {
    assert ReadNumber([0x3F, 0x81, 0x00, 0x05], 2, 1) == Ok(Field(128, 3));
  }

  /** The record of an OCTET STRING holding two octets, and what the
      validator and derDecode2 make of it. */
  lemma RecordVectors()
    ensures Record(0x04, [0xAA, 0xBB]) == [0x04, 0x02, 0xAA, 0xBB]
    ensures EncodeSize(0x04, 2) == Ok(4)
    ensures Decode2([0x04, 0x02, 0xAA, 0xBB], 4) == Ok(Header(0x04, 2, 2))
    ensures !IsValid([0x04, 0x02, 0xAA, 0xBB], 3)
  {
    var rec := Record(0x04, [0xAA, 0xBB]);
    assert rec == [0x04, 0x02, 0xAA, 0xBB];
    Decode2Record(0x04, [0xAA, 0xBB]);
    EncodeSizeIsRecordSize(0x04, [0xAA, 0xBB]);
    ValidCountUnique(rec, 4, 3);
  }
}
