# DER codec of bee2, modelled and verified in Dafny

This project models the DER coding module of the bee2 cryptographic
library (`include/bee2/core/der.h`). A DER record is a TLV: the tag
octets (T), the length octets (L) and then exactly L value octets (V).
The module encodes one record, decodes one record and validates one,
following the distinguished rules of ITU-T X.690: section 8.1.2 for the
tag, section 8.1.3 for the length and section 10.1 for the minimal
length form. It adds two limits of its own: a tag must fit a 32-bit word,
and a length must fit `size_t`.

The modules follow the structure of the format:

- `Octets` (octets.dfy) holds the shared vocabulary:
  - octets and the 32-bit tag word;
  - `SIZE_MAX` of a 64-bit `size_t`;
  - a `Result` type that replaces the C interface's `SIZE_MAX` error return.
- `DerTag` (tag.dfy) covers the tag field:
  - the packed tag word and its logical parts (class, constructed flag and number);
  - short and long tags and base-128 digits;
  - encoding, decoding, the round trip and canonical uniqueness.
- `DerLength` (length.dfy) does the same for the length field: the short
  form, the minimal long form, and the indefinite and reserved first octets.
- `DerValidator` (validator.dfy) covers `derSize`, `derIsValid` and
  `derIsValid2`. It proves that the validator accepts exactly the records
  `Record(tag, value) = EncodeTag(tag) + EncodeLength(|value|) + value`.
- `DerCodec` (codec.dfy) covers the three entry points:
  - `derEncode` in its size-query mode (`EncodeSize`) and its writing mode
    (`Encode`, which writes octet by octet into an array);
  - `derDecode` (`Decode`, which copies the value into a caller array);
  - `derDecode2` (`Decode2`, which reports the offset of the value inside
    the input).
- `DerVectors` (vectors.dfy) holds concrete encodings at the boundaries of
  the forms.

## Model

| member | source | states |
|---|---|---|
| DerTag.ValidTag | include/bee2/core/der.h:57-62 | a word is a valid tag when its number field is not 31 and its upper 24 bits are zero, or its number field is 31 and its upper 24 bits hold a number of at least 31; a valid tag is long exactly when the word exceeds one octet |
| DerTag.FirstOctet | include/bee2/core/der.h:38-41 | the first octet holds the class in bits 6-7, the constructed flag in bit 5 and the number, or the escape 31, in bits 0-4 |
| DerTag.Pack | include/bee2/core/der.h:57-62 | packing representable parts gives a valid word whose low octet is the first wire octet |
| DerTag.Unpack | include/bee2/core/der.h:57-62 | unpacking a valid word gives representable parts; the number is short exactly when the number field is not 31 |
| DerTag.UnpackPack | include/bee2/core/der.h:38-41 | the parts are recovered from their packed word |
| DerTag.PackUnpack | include/bee2/core/der.h:57-62 | every valid word is the packing of its own parts |
| DerTag.HighGroupsForm | include/bee2/core/der.h:47-52 | the marked base-128 digits of m all carry the high bit, give back m and have a non-zero leading digit |
| DerTag.NumberOctetsForm | include/bee2/core/der.h:47-52 | the octets of a positive long tag number are in long form (t_{r-1} != 0, high bit on all but the last octet) and give back the number |
| DerTag.NumberOctetsUnique | include/bee2/core/der.h:47-52 | any octets in long form are the octets of their own value, so a number has one long form |
| DerTag.HighGroupsUnique | include/bee2/core/der.h:47-52 | marked octets with a non-zero leading digit are the marked digits of their value |
| DerTag.EncodeTag | include/bee2/core/der.h:43-55 | the tag octets of a valid word: the low octet alone for a short tag, or the low octet followed by the long-form digits of the upper 24 bits; they start with the first wire octet |
| DerTag.EncodeTagForm | include/bee2/core/der.h:43-55 | a short tag is its one first octet; a long tag is the first octet followed by at most four long-form octets of its upper 24 bits |
| DerTag.ReadNumber | include/bee2/core/der.h:47-52 | a successful read ends beyond its start within the octets and never yields a number of 2^24 or more |
| DerTag.ReadNumberSound | include/bee2/core/der.h:47-52 | reading stops at the first octet with a clear high bit: every octet read before it carries the high bit, and the number is the base-128 value of the octets read |
| DerTag.ReadNumberComplete | include/bee2/core/der.h:47-52 | octets in long form with a value below 2^24 are read whole and give their value |
| DerTag.DecodeTag | include/bee2/core/der.h:43-62 | a decoded tag is valid, consumes at least one available octet and has the first octet as its low octet |
| DerTag.DecodeEncodeTag | include/bee2/core/der.h:43-62 | decoding the encoding of a valid tag gives back the tag and consumes exactly its octets, whatever follows |
| DerTag.DecodedTagIsCanonical | include/bee2/core/der.h:43-62 | octets that decode to a tag start with that tag's encoding, so no other octets decode to it |
| DerTag.ShortNumberInLongFormRejected | include/bee2/core/der.h:54-55 | a long form whose number is below 31 is a format error |
| DerTag.LongDigitsRead | include/bee2/core/der.h:49 | the digits of a decoded long tag, whose leading digit t_{r-1} is non-zero, are the canonical long-form octets of its number |
| DerLength.MinimalOctetsForm | include/bee2/core/der.h:64-68 | the big-endian octets of n give back n and have no leading zero octet |
| DerLength.MinimalOctetsUnique | include/bee2/core/der.h:79-83 | octets without a leading zero are the minimal octets of their value |
| DerLength.EncodeLength | include/bee2/core/der.h:64-83 | the DER length octets: one octet exactly when the length is below 128, otherwise the minimal long form, at most nine octets in all |
| DerLength.EncodeLengthForm | include/bee2/core/der.h:64-68 | below 128 the length is one octet holding it; otherwise 0x80 + r followed by r (at most 8) big-endian octets with a non-zero leading octet, giving the length |
| DerLength.ReadLengthValue | include/bee2/core/der.h:64-68 | reading length octets gives their big-endian value |
| DerLength.DecodeLength | include/bee2/core/der.h:64-85 | a decoded length consumes at least one and at most the available octets |
| DerLength.DecodeEncodeLength | include/bee2/core/der.h:79-83 | decoding the encoding of a length gives back the length and consumes exactly its octets, whatever follows |
| DerLength.DecodedLengthIsCanonical | include/bee2/core/der.h:79-83 | octets that decode to a length start with that length's minimal encoding, so no other octets decode to it |
| DerLength.RejectedLengthForms | include/bee2/core/der.h:69-83 | the indefinite form 0x80, the reserved octet 0xFF, a long form for a length below 128, a zero leading length octet and a length beyond SIZE_MAX are format errors |
| DerLength.DecodedLengthOctets | include/bee2/core/der.h:85 | a decoded length has at most eight long-form octets, since more always exceed size_t |
| DerValidator.Record | include/bee2/core/der.h:34-36 | a record is the tag octets, the length octets and then the value; it has at least two header octets and ends with the value |
| DerValidator.ParseHeader | include/bee2/core/der.h:107-118 | a decoded header has a valid tag and lies within the count octets |
| DerValidator.ParseHeaderCanonical | include/bee2/core/der.h:107-118 | the header octets are the canonical encodings of the decoded tag and length |
| DerValidator.RecordSize | include/bee2/core/der.h:140-150 | a successful derSize is at most count and below SIZE_MAX |
| DerValidator.IsValid | include/bee2/core/der.h:107-122 | derIsValid: the header decodes within count octets and count is exactly the record's size; a valid code has at least two octets and a size below SIZE_MAX |
| DerValidator.IsValid2 | include/bee2/core/der.h:124-138 | derIsValid2: derIsValid holds and the decoded tag is the given one, which is then a valid tag |
| DerValidator.RecordSizeSound | include/bee2/core/der.h:140-150 | a successful size is the header length plus the decoded L, and names a prefix that is the record of the decoded tag and the following value octets |
| DerValidator.RecordSizeComplete | include/bee2/core/der.h:140-150 | a buffer that starts with a record fitting count octets has that record's size and header |
| DerValidator.RecordSizeBound | include/bee2/core/der.h:147-150 | count is only an upper bound: every bound at least the size gives the same size, and every smaller bound is a format error |
| DerValidator.ValidIsRecord | include/bee2/core/der.h:107-122 | a buffer that derIsValid accepts is exactly the record of its decoded tag and value |
| DerValidator.RecordIsValid | include/bee2/core/der.h:107-138 | every record below SIZE_MAX octets is valid, and valid with its own tag |
| DerValidator.ValidCountUnique | include/bee2/core/der.h:114 | a valid buffer is valid for exactly one count, so a truncated record is invalid |
| DerValidator.IsValid2Tag | include/bee2/core/der.h:124-138 | derIsValid2 holds for exactly one tag, the decoded one, and that tag is valid |
| DerCodec.TagSizeIsEncodedSize | include/bee2/core/der.h:43-55 | the tag octets counted from the number are as many as the encoding |
| DerCodec.LengthSizeIsEncodedSize | include/bee2/core/der.h:64-83 | the length octets counted from the length are as many as the encoding |
| DerCodec.EncodeSize | include/bee2/core/der.h:89-98 | the size query fails for an invalid tag; a successful size is below SIZE_MAX and exceeds the value length |
| DerCodec.EncodeSizeIsRecordSize | include/bee2/core/der.h:89-98 | the size query equals the length of the record that a writing call produces, and fails exactly for an invalid tag or an uncountable size |
| DerCodec.WriteHighGroups | include/bee2/core/der.h:47-52 | writes exactly the marked base-128 digits of m at the position and nothing else |
| DerCodec.WriteMinimalOctets | include/bee2/core/der.h:64-68 | writes exactly the big-endian octets of n at the position and nothing else |
| DerCodec.WriteTag | include/bee2/core/der.h:43-55 | writes exactly the encoding of the tag at the position and nothing else |
| DerCodec.WriteLongTag | include/bee2/core/der.h:47-52 | writes the escape octet followed by the long-form octets of the number, and nothing else |
| DerCodec.WriteNumberOctets | include/bee2/core/der.h:47-52 | writes exactly the long-form octets of the number and nothing else |
| DerCodec.WriteLength | include/bee2/core/der.h:64-83 | writes exactly the minimal encoding of the length at the position and nothing else |
| DerCodec.WriteLongLength | include/bee2/core/der.h:64-68 | writes the count octet followed by the big-endian octets of the length, and nothing else |
| DerCodec.WriteValue | include/bee2/core/der.h:34-36 | copies the value unchanged to the position and touches nothing else |
| DerCodec.WriteHeader | include/bee2/core/der.h:34-36 | writes the tag and length encodings at the start of the buffer and nothing beyond |
| DerCodec.WriteRecord | include/bee2/core/der.h:89-94 | writes the record of tag and value at the start of the buffer and nothing beyond |
| DerCodec.Encode | include/bee2/core/der.h:89-105 | returns the size query's answer; on success the buffer starts with the record, which is valid with the given tag, and nothing after it changes; on error nothing is written |
| DerCodec.EncodedIsValid | include/bee2/core/der.h:89-138 | the record that the size query counted passes derIsValid2 with its tag |
| DerCodec.Decode2 | include/bee2/core/der.h:171-186 | succeeds exactly when derIsValid holds, and the value then ends at count |
| DerCodec.Decode2IsRecord | include/bee2/core/der.h:171-186 | the octets before the reported offset are the canonical header of the reported tag and length, and the value is the rest of the record |
| DerCodec.Decode2Record | include/bee2/core/der.h:171-186 | decoding a record gives back its tag, its value length and the offset of its value |
| DerCodec.Decode | include/bee2/core/der.h:152-169 | succeeds exactly when derIsValid holds; then returns the tag and length, copies the value and writes nothing after it; the input is the record of the returned tag and the copied value; on error the output is untouched |
| DerCodec.CopyValue | include/bee2/core/der.h:152-160 | copies the value octets of the input to the start of the output buffer and writes nothing after them |
| DerCodec.EncodeThenDecode | include/bee2/core/der.h:89-186 | encoding into a buffer of the queried size and decoding it gives back the tag and the value exactly; an invalid tag fails at the size query |
| DerVectors.LengthVectors | include/bee2/core/der.h:64-83 | the encodings of 0, 127, 128 and 256, and the rejection of 0x80, 0xFF, 0x81 0x7F and 0x82 0x00 0x80 |
| DerVectors.TagVectors | include/bee2/core/der.h:43-62 | short and long tag encodings at the 30/31 boundary and of number 128, and the rejection of a long form for 30, of a zero leading digit and of invalid words |
| DerVectors.RecordVectors | include/bee2/core/der.h:89-150 | the record of a two-octet OCTET STRING, its size query, its derDecode2 result, and its invalidity when truncated |

## Left out

- The bodies follow the rules documented in der.h; the implementation
  file der.c is not modelled. Two parts of the writers are therefore
  modelling choices: the order in which they produce digits, and their
  recursive form.
- The aliasing preconditions of derDecode and derDecode2 are not
  modelled. Inputs and outputs are separate sequences and arrays, so they
  never overlap.
- The reservation preconditions (`derEncode(0, …)` octets for der, and
  `derDecode(0, 0, der, count)` octets for value) become requirements on
  the array length.
- A null (zero) output address meaning "no output" is not modelled:
  - the size query of derEncode is the function `EncodeSize`;
  - decoding always returns the tag;
  - `Decode2` returns the value's offset inside der instead of an address
    into der.
- Encode: the size-query and writing calls are two separate members,
  `EncodeSize` and `Encode`. A writing call whose value address is zero is
  not modelled.
- The content of V is not interpreted, as in the source. The constructed
  and primitive forms are not distinguished beyond the flag bit of the
  tag.
- The BER forms are only rejected, never produced or accepted:
  - the indefinite length;
  - a long length below 128;
  - a zero leading length octet.
- `size_t` is fixed at 64 bits. u32 is an int in 0..2^32-1.
- RecordSize: a record whose total would be exactly SIZE_MAX is a format
  error, because the C interface could not tell that result from its error
  return.
- EncodeSize: it fails when the total would not stay below SIZE_MAX.
  der.h does not say what happens when |T| + |L| + len does not fit
  `size_t`.
- Decode: it writes nothing on a format error. The header leaves the
  output unspecified in that case.
