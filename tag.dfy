/** The tag field (T) of a DER record.

    On the wire the first octet holds the class (bits 6-7), the constructed
    flag (bit 5) and a 5-bit number field (bits 0-4).  A number field other
    than 31 is the tag number itself (short tag, numbers 0..30).  The number
    field 31 is an escape: the number follows as base-128 big-endian digits
    t_{r-1}, ..., t_0, every octet but the last carrying the high bit, and
    t_{r-1} != 0 (long tag, numbers >= 31 only).

    At the interface a tag is a packed 32-bit word: the low octet is the
    first wire octet, and for a long tag the upper 24 bits hold the number. */
module DerTag {
  import opened Octets

  /** Long tag numbers must fit the upper 24 bits of the tag word. */
  const TAG_NUMBER_BOUND: nat := 0x100_0000

  /** The number field value that announces a long tag. */
  const ESCAPE: nat := 31

  /** A packed tag is well formed: a short tag has zero upper 24 bits, a long
      tag has an upper 24-bit number of at least 31. */
  predicate ValidTag(tag: Word32)
    ensures ValidTag(tag) ==> ((tag % 32 == ESCAPE) <==> tag >= 256)
  {
    if tag % 32 != ESCAPE then tag / 256 == 0 else tag / 256 >= ESCAPE
  }

  // ---------------------------------------------------------------------
  // The tag as a record of its logical parts, and its packing.

  datatype TagClass = Universal | Application | ContextSpecific | Private

  datatype TagFields = TagFields(cls: TagClass, constructed: bool, number: nat)

  function ClassBits(c: TagClass): (b: nat)
    ensures b < 4
  {
    match c
    case Universal => 0
    case Application => 1
    case ContextSpecific => 2
    case Private => 3
  }

  function ClassOf(b: nat): (c: TagClass)
    requires b < 4
    ensures ClassBits(c) == b
  {
    if b == 0 then Universal
    else if b == 1 then Application
    else if b == 2 then ContextSpecific
    else Private
  }

  /** The logical parts fit the tag word. */
  predicate Representable(f: TagFields) {
    f.number < TAG_NUMBER_BOUND
  }

  /** The first wire octet of a tag with these parts. */
  function FirstOctet(f: TagFields): (o: Octet)
    ensures o / 64 == ClassBits(f.cls)
    ensures (o / 32) % 2 == (if f.constructed then 1 else 0)
    ensures o % 32 == (if f.number < ESCAPE then f.number else ESCAPE)
  {
    ClassBits(f.cls) * 64 + (if f.constructed then 32 else 0)
      + (if f.number < ESCAPE then f.number else ESCAPE)
  }

  function Pack(f: TagFields): (tag: Word32)
    requires Representable(f)
    ensures ValidTag(tag)
    ensures tag % 256 == FirstOctet(f)
  {
    if f.number < ESCAPE then FirstOctet(f) else f.number * 256 + FirstOctet(f)
  }

  function Unpack(tag: Word32): (f: TagFields)
    requires ValidTag(tag)
    ensures Representable(f)
    ensures (f.number < ESCAPE) == (tag % 32 != ESCAPE)
  {
    var first := tag % 256;
    TagFields(ClassOf(first / 64), (first / 32) % 2 == 1,
              if tag % 32 != ESCAPE then tag % 32 else tag / 256)
  }

  /** Packing loses nothing: the parts are recovered from the word. */
  lemma UnpackPack(f: TagFields)
    requires Representable(f)
    ensures Unpack(Pack(f)) == f
  {
    var tag := Pack(f);
    var g := Unpack(tag);
    assert tag % 256 == FirstOctet(f);
    assert g.cls == f.cls by {
      assert ClassBits(g.cls) == ClassBits(f.cls);
    }
  }

  /** Every valid word is the packing of its parts, so the valid words are
      exactly the packings of representable records. */
  lemma PackUnpack(tag: Word32)
    requires ValidTag(tag)
    ensures Pack(Unpack(tag)) == tag
  {
    var f := Unpack(tag);
    var first := tag % 256;
    assert FirstOctet(f) == first by {
      OctetBits(first);
      LowBits(tag);
    }
    if tag % 32 != ESCAPE {
      assert tag < 256;
    } else {
      assert tag == (tag / 256) * 256 + first;
    }
  }

  lemma OctetBits(o: Octet)
    ensures o == (o / 64) * 64 + ((o / 32) % 2) * 32 + o % 32
  {
  }

  lemma LowBits(w: Word32)
    ensures (w % 256) % 32 == w % 32
  {
    var q, r := w / 256, w % 256;
    assert w == q * 256 + r;
    PackedParts(q, r);
  }

  // ---------------------------------------------------------------------
  // Base-128 digits of a long tag number.

  /** The big-endian base-128 value of the low 7 bits of the octets. */
  function Value7(s: seq<Octet>): (v: nat) {
    if s == [] then 0 else Value7(s[..|s| - 1]) * 128 + s[|s| - 1] % 128
  }

  /** The grammar of the octets after the escape octet: at least one octet,
      a non-zero leading digit, the high bit set on every octet but the last
      and clear on the last. */
  predicate LongNumberForm(o: seq<Octet>) {
    && |o| >= 1
    && o[0] % 128 != 0
    && (forall j :: 0 <= j < |o| - 1 ==> o[j] >= 128)
    && o[|o| - 1] < 128
  }

  /** The base-128 digits of m, most significant first, each marked with
      the continuation bit. */
  function HighGroups(m: nat): (r: seq<Octet>) {
    if m == 0 then [] else HighGroups(m / 128) + [128 + m % 128]
  }

  /** The marked digits of m carry the continuation bit, have no leading
      zero digit and give back m. */
  lemma {:induction false} HighGroupsForm(m: nat)
    ensures var r := HighGroups(m);
      && (forall j :: 0 <= j < |r| ==> r[j] >= 128)
      && Value7(r) == m
      && (m == 0) == (r == [])
      && (m > 0 ==> r[0] % 128 != 0)
  {
    if m > 0 {
      HighGroupsForm(m / 128);
      var high, x := HighGroups(m / 128), 128 + m % 128;
      AppendMarkedDigit(high, x);
      assert HighGroups(m) == high + [x];
      assert (m / 128) * 128 + x % 128 == m;
    }
  }

  /** A marked digit appended to marked digits without a leading zero. */
  lemma AppendMarkedDigit(high: seq<Octet>, x: Octet)
    requires forall j :: 0 <= j < |high| ==> high[j] >= 128
    requires |high| >= 1 ==> high[0] % 128 != 0
    requires x >= 128
    ensures var r := high + [x];
      && (forall j :: 0 <= j < |r| ==> r[j] >= 128)
      && Value7(r) == Value7(high) * 128 + x % 128
      && (|high| >= 1 ==> r[0] % 128 != 0)
  {
    var r := high + [x];
    assert |high| >= 1 ==> r[0] == high[0];
    assert r[..|r| - 1] == high;
  }

  /** The octets that encode a long tag number n after the escape octet:
      the marked high digits and then the unmarked last digit. */
  function NumberOctets(n: nat): (r: seq<Octet>)
    requires n > 0
  {
    HighGroups(n / 128) + [n % 128]
  }

  /** The octets of a long tag number are in long form and give it back. */
  lemma NumberOctetsForm(n: nat)
    requires n > 0
    ensures LongNumberForm(NumberOctets(n)) && Value7(NumberOctets(n)) == n
  {
    var high, d := HighGroups(n / 128), n % 128;
    HighGroupsForm(n / 128);
    AppendLastDigit(high, d);
    AppendDigitValue(high, d);
    assert NumberOctets(n) == high + [d];
    assert (n / 128) * 128 + d == n;
  }

  /** Marked digits followed by an unmarked last digit are in long form. */
  lemma AppendLastDigit(high: seq<Octet>, d: Octet)
    requires forall j :: 0 <= j < |high| ==> high[j] >= 128
    requires |high| >= 1 ==> high[0] % 128 != 0
    requires d < 128 && (high == [] ==> d != 0)
    ensures LongNumberForm(high + [d])
  {
    var r := high + [d];
    assert |high| >= 1 ==> r[0] == high[0];
    assert forall j :: 0 <= j < |r| - 1 ==> r[j] == high[j];
  }

  lemma AppendDigitValue(high: seq<Octet>, d: Octet)
    requires d < 128
    ensures Value7(high + [d]) == Value7(high) * 128 + d
  {
    var r := high + [d];
    assert r[..|r| - 1] == high;
  }

  lemma {:induction false} HighGroupsLength(m: nat, k: nat)
    requires m < Pow(128, k)
    ensures |HighGroups(m)| <= k
  {
    if m > 0 {
      HighGroupsLength(m / 128, k - 1);
    }
  }

  lemma {:induction false} Value7Positive(o: seq<Octet>)
    requires |o| >= 1 && o[0] % 128 != 0
    ensures Value7(o) >= 1
  {
    if |o| > 1 {
      Value7Positive(o[..|o| - 1]);
    }
  }

  /** Marked digits without a leading zero are the digits of their value. */
  lemma {:induction false} HighGroupsUnique(o: seq<Octet>)
    requires forall j :: 0 <= j < |o| ==> o[j] >= 128
    requires |o| >= 1 ==> o[0] % 128 != 0
    ensures o == HighGroups(Value7(o))
  {
    if o != [] {
      var init := o[..|o| - 1];
      MarkedPrefix(o, init);
      HighGroupsUnique(init);
      Value7Positive(o);
      LastMarkedDigit(o, init, Value7(o));
      assert o == init + [o[|o| - 1]];
    }
  }

  /** Dropping the last of some marked digits keeps them marked and keeps
      the leading digit. */
  lemma MarkedPrefix(o: seq<Octet>, init: seq<Octet>)
    requires |o| >= 1 && init == o[..|o| - 1]
    requires forall j :: 0 <= j < |o| ==> o[j] >= 128
    requires o[0] % 128 != 0
    ensures forall j :: 0 <= j < |init| ==> init[j] >= 128
    ensures |init| >= 1 ==> init[0] % 128 != 0
  {
    forall j | 0 <= j < |init|
      ensures init[j] >= 128
    {
      assert init[j] == o[j];
    }
    assert |init| >= 1 ==> init[0] == o[0];
  }

  /** The value of marked digits splits into the value of all but the last
      and the last digit. */
  lemma LastMarkedDigit(o: seq<Octet>, init: seq<Octet>, n: nat)
    requires |o| >= 1 && init == o[..|o| - 1] && o[|o| - 1] >= 128
    requires n == Value7(o)
    ensures n / 128 == Value7(init) && 128 + n % 128 == o[|o| - 1]
  {
    var v := Value7(init);
    assert n == v * 128 + o[|o| - 1] % 128;
    MarkedDigit(v, o[|o| - 1]);
  }

  /** A marked digit appended to v: dividing gives back v, and marking the
      remainder gives back the octet. */
  lemma MarkedDigit(v: nat, last: Octet)
    requires last >= 128
    ensures (v * 128 + last % 128) / 128 == v
    ensures 128 + (v * 128 + last % 128) % 128 == last
  {
  }

  /** A base-128 digit d appended to v: dividing gives back v, the
      remainder gives back d. */
  lemma Digit128(v: nat, d: nat)
    requires d < 128
    ensures (v * 128 + d) / 128 == v && (v * 128 + d) % 128 == d
  {
  }

  /** Canonicity of long tag numbers: octets of the long form are the octets
      of their value. */
  lemma NumberOctetsUnique(o: seq<Octet>)
    requires LongNumberForm(o)
    ensures Value7(o) > 0 && o == NumberOctets(Value7(o))
  {
    Value7Positive(o);
    var init := o[..|o| - 1];
    var last := o[|o| - 1];
    var v := Value7(init);
    assert Value7(o) == v * 128 + last;
    Digit128(v, last);
    forall j | 0 <= j < |init|
      ensures init[j] >= 128
    {
      assert init[j] == o[j];
    }
    assert |init| >= 1 ==> init[0] == o[0];
    HighGroupsUnique(init);
    assert o == init + [last];
  }

  lemma {:induction false} Value7Prefix(o: seq<Octet>, j: nat)
    requires j <= |o|
    ensures Value7(o[..j]) <= Value7(o)
  {
    if j < |o| {
      var init := o[..|o| - 1];
      assert o[..j] == init[..j];
      assert Value7(o) >= Value7(init);
      Value7Prefix(init, j);
    } else {
      assert o[..j] == o;
    }
  }

  // ---------------------------------------------------------------------
  // Encoding and decoding the tag field.

  /** The canonical tag octets of a valid packed tag. */
  function EncodeTag(tag: Word32): (r: seq<Octet>)
    requires ValidTag(tag)
    ensures |r| >= 1 && r[0] == tag % 256
  {
    if tag % 32 != ESCAPE then [tag] else [tag % 256] + NumberOctets(tag / 256)
  }

  /** A short tag is its single first octet; a long tag is the first octet
      followed by at most four octets of the number in long form. */
  lemma EncodeTagForm(tag: Word32)
    requires ValidTag(tag)
    ensures var r := EncodeTag(tag);
      && 1 <= |r| <= 5 && r[0] == tag % 256
      && (|r| == 1) == (tag % 32 != ESCAPE)
      && (tag % 32 == ESCAPE ==> LongNumberForm(r[1..]) && Value7(r[1..]) == tag / 256)
  {
    if tag % 32 == ESCAPE {
      var n := tag / 256;
      HighGroupsLength(n / 128, 3);
      NumberOctetsForm(n);
      assert EncodeTag(tag)[1..] == NumberOctets(n);
    }
  }

  /** Reads continuation octets from index i of s, accumulating the number
      in acc, until an octet with a clear high bit; fails on truncation or
      when the number leaves the 24-bit field.  The size of the result is
      the index just after the last octet read. */
  function ReadNumber(s: seq<Octet>, i: nat, acc: nat): (r: Result<Field<nat>>)
    requires i <= |s|
    ensures r.Ok? ==> i < r.value.size <= |s| && r.value.item < TAG_NUMBER_BOUND
    decreases |s| - i
  {
    if i == |s| then FormatError
    else
      var next := acc * 128 + s[i] % 128;
      if next >= TAG_NUMBER_BOUND then FormatError
      else if s[i] < 128 then Ok(Field(next, i + 1))
      else ReadNumber(s, i + 1, next)
  }

  /** Decodes the tag field at the start of s.  A short tag is one octet;
      a long tag must have a non-zero leading digit, a number below 2^24
      and a number of at least 31. */
  function DecodeTag(s: seq<Octet>): (r: Result<Field<Word32>>)
    ensures r.Ok? ==> 1 <= r.value.size <= |s| && ValidTag(r.value.item)
    ensures r.Ok? ==> r.value.item % 256 == s[0]
  {
    if |s| == 0 then FormatError
    else if s[0] % 32 != ESCAPE then Ok(Field(s[0], 1))
    else if |s| < 2 || s[1] % 128 == 0 then FormatError
    else match ReadNumber(s, 1, 0)
      case FormatError => FormatError
      case Ok(f) => if f.item < ESCAPE then FormatError else Ok(Field(f.item * 256 + s[0], f.size))
  }

  lemma {:induction false} ReadNumberSound(s: seq<Octet>, start: nat, i: nat, acc: nat)
    requires start <= i <= |s|
    requires acc == Value7(s[start..i])
    requires forall j :: start <= j < i ==> s[j] >= 128
    requires ReadNumber(s, i, acc).Ok?
    ensures var f := ReadNumber(s, i, acc).value;
      && (forall j :: start <= j < f.size - 1 ==> s[j] >= 128)
      && s[f.size - 1] < 128
      && f.item == Value7(s[start..f.size])
    decreases |s| - i
  {
    var next := acc * 128 + s[i] % 128;
    assert s[start..i + 1][..i - start] == s[start..i];
    assert next == Value7(s[start..i + 1]);
    if s[i] >= 128 {
      assert ReadNumber(s, i, acc) == ReadNumber(s, i + 1, next);
      ReadNumberSound(s, start, i + 1, next);
    } else {
      assert ReadNumber(s, i, acc) == Ok(Field(next, i + 1));
    }
  }

  lemma {:induction false} ReadNumberComplete(s: seq<Octet>, start: nat, i: nat, o: seq<Octet>)
    requires LongNumberForm(o) && Value7(o) < TAG_NUMBER_BOUND
    requires start <= i < start + |o| <= |s| && s[start..start + |o|] == o
    ensures ReadNumber(s, i, Value7(o[..i - start])) == Ok(Field(Value7(o), start + |o|))
    decreases |s| - i
  {
    var k := i - start;
    var acc := Value7(o[..k]);
    assert s[i] == o[k];
    assert o[..k + 1][..k] == o[..k];
    assert acc * 128 + s[i] % 128 == Value7(o[..k + 1]);
    Value7Prefix(o, k + 1);
    if k + 1 == |o| {
      assert o[..k + 1] == o;
      assert ReadNumber(s, i, acc) == Ok(Field(Value7(o[..k + 1]), i + 1));
    } else {
      assert ReadNumber(s, i, acc) == ReadNumber(s, i + 1, Value7(o[..k + 1]));
      ReadNumberComplete(s, start, i + 1, o);
    }
  }

  /** Decoding the encoding of a valid tag gives back the tag and consumes
      exactly its octets, whatever follows them. */
  lemma DecodeEncodeTag(tag: Word32, rest: seq<Octet>)
    requires ValidTag(tag)
    ensures DecodeTag(EncodeTag(tag) + rest) == Ok(Field(tag, |EncodeTag(tag)|))
  {
    if tag % 32 != ESCAPE {
      ShortTagDecodes(tag, rest, EncodeTag(tag) + rest);
    } else {
      LongTagDecodes(tag, rest, EncodeTag(tag));
    }
  }

  lemma ShortTagDecodes(tag: Word32, rest: seq<Octet>, s: seq<Octet>)
    requires ValidTag(tag) && tag % 32 != ESCAPE && s == [tag] + rest
    ensures |EncodeTag(tag)| == 1 && DecodeTag(s) == Ok(Field(tag, 1))
  {
    assert s[0] == tag;
  }

  lemma LongTagDecodes(tag: Word32, rest: seq<Octet>, e: seq<Octet>)
    requires ValidTag(tag) && tag % 32 == ESCAPE && e == EncodeTag(tag)
    ensures DecodeTag(e + rest) == Ok(Field(tag, |e|))
  {
    EncodeTagForm(tag);
    LowBits(tag);
    var o := e[1..];
    var s := e + rest;
    assert s[0] == tag % 256 && s[1..|e|] == o;
    LongFormDecodes(tag, o, s, |e|);
  }

  lemma LongFormDecodes(tag: Word32, o: seq<Octet>, s: seq<Octet>, size: nat)
    requires ValidTag(tag) && tag % 32 == ESCAPE && (tag % 256) % 32 == ESCAPE
    requires LongNumberForm(o) && Value7(o) == tag / 256
    requires size == 1 + |o| && |s| >= size && s[0] == tag % 256 && s[1..size] == o
    ensures DecodeTag(s) == Ok(Field(tag, size))
  {
    DecodeLongForm(s, o, tag % 256);
  }

  /** A long tag is read back from its escape octet and its digits. */
  lemma DecodeLongForm(s: seq<Octet>, o: seq<Octet>, first: Octet)
    requires first % 32 == ESCAPE && LongNumberForm(o)
    requires ESCAPE <= Value7(o) < TAG_NUMBER_BOUND
    requires |s| >= 1 + |o| && s[0] == first && s[1..1 + |o|] == o
    ensures Value7(o) * 256 + first < 0x1_0000_0000
    ensures DecodeTag(s) == Ok(Field(Value7(o) * 256 + first, 1 + |o|))
  {
    assert s[1] == o[0];
    assert ReadNumber(s, 1, 0) == Ok(Field(Value7(o), 1 + |o|)) by {
      assert Value7(o[..0]) == 0;
      ReadNumberComplete(s, 1, 1, o);
    }
  }

  /** Canonical uniqueness: whatever octets decode to a tag begin with the
      encoding of that tag, so no other octet sequence decodes to it. */
  lemma DecodedTagIsCanonical(s: seq<Octet>)
    requires DecodeTag(s).Ok?
    ensures var f := DecodeTag(s).value; s[..f.size] == EncodeTag(f.item)
  {
    var f := DecodeTag(s).value;
    if s[0] % 32 == ESCAPE {
      var g := ReadNumber(s, 1, 0).value;
      LongTagCanonical(s, g, f.item);
    }
  }

  lemma LongTagCanonical(s: seq<Octet>, g: Field<nat>, tag: Word32)
    requires |s| >= 2 && s[0] % 32 == ESCAPE && s[1] % 128 != 0
    requires ReadNumber(s, 1, 0) == Ok(g) && g.item >= ESCAPE
    requires tag == g.item * 256 + s[0]
    ensures ValidTag(tag) && s[..g.size] == EncodeTag(tag)
  {
    var o := s[1..g.size];
    assert g.item > 0 && o == NumberOctets(g.item) by {
      LongDigitsRead(s, g);
    }
    assert tag / 256 == g.item && tag % 256 == s[0] && tag % 32 == ESCAPE by {
      PackedParts(g.item, s[0]);
    }
    assert EncodeTag(tag) == [s[0]] + o;
    assert s[..g.size] == [s[0]] + o by {
      SplitFirst(s, g.size);
    }
  }

  /** The continuation octets of a long tag that was read are in long form
      and give the number read. */
  lemma LongDigitsRead(s: seq<Octet>, g: Field<nat>)
    requires |s| >= 2 && s[1] % 128 != 0
    requires ReadNumber(s, 1, 0) == Ok(g)
    ensures g.item > 0 && s[1..g.size] == NumberOctets(g.item)
  {
    var o := s[1..g.size];
    assert LongNumberForm(o) && Value7(o) == g.item by {
      assert Value7(s[1..1]) == 0;
      ReadNumberSound(s, 1, 1, 0);
      forall j | 0 <= j < |o| - 1 ensures o[j] >= 128 {
        assert o[j] == s[1 + j];
      }
    }
    NumberOctetsUnique(o);
  }

  /** The parts of a word made of a number above a first octet. */
  lemma PackedParts(n: nat, o: Octet)
    ensures (n * 256 + o) / 256 == n && (n * 256 + o) % 256 == o
    ensures (n * 256 + o) % 32 == o % 32
  {
    var t := n * 256 + o;
    assert t == (n * 8 + o / 32) * 32 + o % 32;
  }

  lemma SplitFirst(s: seq<Octet>, k: nat)
    requires 1 <= k <= |s|
    ensures s[..k] == [s[0]] + s[1..k]
  {
  }

  /** A long form whose digits give a number below 31 is a format error. */
  lemma ShortNumberInLongFormRejected(s: seq<Octet>, k: nat)
    requires 1 < k <= |s| && s[0] % 32 == ESCAPE
    requires LongNumberForm(s[1..k]) && Value7(s[1..k]) < ESCAPE
    ensures DecodeTag(s).FormatError?
  {
    var o := s[1..k];
    assert s[1..1 + |o|] == o;
    assert o[..0] == [];
    ReadNumberComplete(s, 1, 1, o);
  }
}
