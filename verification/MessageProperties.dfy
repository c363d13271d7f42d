/** Laws of the `Unmarshal` loop that hold for every message. */
module MessageProperties {
  import opened Arith
  import opened Bits
  import opened Varint
  import opened Wire
  import opened WireProperties

  // ---------------------------------------------------------------- a field does not look beyond itself

  lemma {:induction false} SkipPrefix(s: seq<byte>, rest: seq<byte>, base: nat, depth: nat)
    requires SkipFrom(s, base, depth).Ok? && SkipFrom(s, base, depth).value <= base + |s|
    ensures SkipFrom(s + rest, base, depth) == SkipFrom(s, base, depth)
    decreases |s|
  {
    hide ReadVarint, ReadToken, SkipFrom;
    var token := SkippedToken(s, base, depth);
    ReadTokenPrefix(s, rest);
    SkipOne(s + rest, base, depth, token);
    assert (s + rest)[token.length..] == s[token.length..] + rest;
    if DepthAfter(token.effect, depth) > 0 {
      SkipPrefix(s[token.length..], rest, base + token.length, DepthAfter(token.effect, depth));
    }
  }

  lemma ReadLengthPrefix(s: seq<byte>, rest: seq<byte>, base: nat)
    requires ReadLength(s, base).Ok?
    ensures ReadLength(s + rest, base) == ReadLength(s, base)
  {
    hide ReadVarint;
    ReadVarintPrefix(s, rest);
  }

  lemma ParseBodyPrefix<M>(schema: Schema<M>, m: M, s: seq<byte>, rest: seq<byte>, tag: Tag, base: nat)
    requires 1 <= tag.length <= |s| && ParseBody(schema, m, s, tag, base).Ok?
    ensures ParseBody(schema, m, s + rest, tag, base) == ParseBody(schema, m, s, tag, base)
  {
    hide ReadVarint, ReadLength, SkipFrom;
    var body := s[tag.length..];
    assert (s + rest)[tag.length..] == body + rest;
    match schema.kind(tag.number)
    case Bytes =>
      ReadLengthPrefix(body, rest, base + tag.length);
      var p := ReadLength(body, base + tag.length).value;
      assert (body + rest)[p.length..p.length + p.value] == body[p.length..p.length + p.value];
    case Number => ReadVarintPrefix(body, rest);
    case Unknown => SkipPrefix(s, rest, 0, 0);
  }

  lemma ParseFieldPrefix<M>(schema: Schema<M>, m: M, s: seq<byte>, rest: seq<byte>, base: nat)
    requires ParseField(schema, m, s, base).Ok?
    ensures ParseField(schema, m, s + rest, base) == ParseField(schema, m, s, base)
  {
    hide ReadVarint, ParseBody;
    ReadVarintPrefix(s, rest);
    ParseBodyPrefix(schema, m, s, rest, ReadTag(s).value, base);
  }

  // ---------------------------------------------------------------- concatenation merges

  /** Parsing a concatenation continues with the message that the first part made. */
  lemma {:induction false} ParseConcat<M>(schema: Schema<M>, m: M, a: seq<byte>, b: seq<byte>, base: nat)
    requires Parse(schema, m, a, base).Ok?
    ensures Parse(schema, m, a + b, base) == Parse(schema, Parse(schema, m, a, base).value, b, base + |a|)
    decreases |a|
  {
    hide ParseField;
    if a == [] {
      assert a + b == b;
    } else {
      ParseFieldPrefix(schema, m, a, b, base);
      var f := ParseField(schema, m, a, base).value;
      ParseConcat(schema, f.message, a[f.length..], b, base + f.length);
      assert (a + b)[f.length..] == a[f.length..] + b;
    }
  }

  lemma ReadLengthRebase(s: seq<byte>, base: nat, base': nat)
    requires ReadLength(s, base).Ok? && base' + |s| < TWO_63
    ensures ReadLength(s, base') == ReadLength(s, base)
  {
    hide ReadVarint;
  }

  lemma ParseFieldRebase<M>(schema: Schema<M>, m: M, s: seq<byte>, base: nat, base': nat)
    requires ParseField(schema, m, s, base).Ok? && base' + |s| < TWO_63
    ensures ParseField(schema, m, s, base') == ParseField(schema, m, s, base)
  {
    hide ReadVarint, ReadTag, ReadLength, SkipFrom;
    var tag := ReadTag(s).value;
    if schema.kind(tag.number).Bytes? {
      ReadLengthRebase(s[tag.length..], base + tag.length, base' + tag.length);
    }
  }

  /** Only the kind of error depends on where in the input the bytes start. */
  lemma {:induction false} ParseRebase<M>(schema: Schema<M>, m: M, s: seq<byte>, base: nat, base': nat)
    requires Parse(schema, m, s, base).Ok? && base' + |s| < TWO_63
    ensures Parse(schema, m, s, base') == Parse(schema, m, s, base)
    decreases |s|
  {
    hide ParseField;
    if s != [] {
      ParseFieldRebase(schema, m, s, base, base');
      var f := ParseField(schema, m, s, base).value;
      ParseRebase(schema, f.message, s[f.length..], base + f.length, base' + f.length);
    }
  }

  // ---------------------------------------------------------------- unknown fields

  ghost predicate IsUnknown<M>(schema: Schema<M>, u: UnknownField) {
    && WellFormed(u)
    && FieldNumber(Base128(u.tag)) > 0
    && schema.kind(FieldNumber(Base128(u.tag))).Unknown?
  }

  lemma TagBeforeRest(u: UnknownField) returns (rest: seq<byte>)
    requires WellFormed(u)
    ensures Encode(u) == u.tag + rest
    ensures IsVarint(u.tag) && WireType(Base128(u.tag)) != 4
  {
    hide IsVarint;
    rest := Encode(u)[|u.tag|..];
  }

  lemma ParseUnknown<M>(schema: Schema<M>, m: M, u: UnknownField, base: nat)
    requires IsUnknown(schema, u) && base + |Encode(u)| < TWO_63
    ensures Parse(schema, m, Encode(u), base) == Ok(m)
  {
    hide ReadVarint, SkipFrom, Encode, WellFormed, Base128, IsVarint;
    var s := Encode(u);
    var rest := TagBeforeRest(u);
    VarintIsRead(u.tag, rest);
    SkipField(u, [], 0, 0);
    assert s + [] == s;
    assert ParseField(schema, m, s, base) == Ok(Field(m, |s|));
    assert s[|s|..] == [];
  }

  /** A well-formed unknown field between two fields changes neither success nor the message. */
  lemma InsertUnknown<M>(schema: Schema<M>, m: M, a: seq<byte>, u: UnknownField, b: seq<byte>)
    requires Parse(schema, m, a, 0).Ok?
    requires IsUnknown(schema, u) && |a| + |Encode(u)| + |b| < TWO_63
    ensures Parse(schema, m, a + Encode(u) + b, 0).Ok? <==> Parse(schema, m, a + b, 0).Ok?
    ensures Parse(schema, m, a + b, 0).Ok? ==> Parse(schema, m, a + Encode(u) + b, 0) == Parse(schema, m, a + b, 0)
  {
    hide Parse, Encode, IsUnknown;
    var m1 := Parse(schema, m, a, 0).value;
    ParseConcat(schema, m, a, Encode(u) + b, 0);
    ParseConcat(schema, m, a, b, 0);
    assert a + Encode(u) + b == a + (Encode(u) + b);
    ParseUnknown(schema, m1, u, |a|);
    ParseConcat(schema, m1, Encode(u), b, |a|);
    var at := |a| + |Encode(u)|;
    if Parse(schema, m1, b, |a|).Ok? { ParseRebase(schema, m1, b, |a|, at); }
    if Parse(schema, m1, b, at).Ok? { ParseRebase(schema, m1, b, at, |a|); }
  }

  // ---------------------------------------------------------------- written fields are read back

  function TagBytes(number: nat, wireType: nat): seq<byte> {
    VarintBytes(8 * number + wireType)
  }

  /** A length-delimited field as `MarshalToSizedBuffer` lays it out. */
  function WriteBytes(number: nat, payload: seq<byte>): seq<byte> {
    TagBytes(number, 2) + (VarintBytes(|payload|) + payload)
  }

  function WriteNumber(number: nat, v: nat): seq<byte> {
    TagBytes(number, 0) + VarintBytes(v)
  }

  lemma TagReadBack(number: nat, wireType: nat, rest: seq<byte>)
    requires 1 <= number < 0x1000_0000 && wireType < 8 && wireType != 4
    ensures ReadTag(TagBytes(number, wireType) + rest) == Ok(Tag(number, wireType, |TagBytes(number, wireType)|))
  {
    hide ReadVarint, VarintBytes;
    VarintRoundTrip(8 * number + wireType, rest);
    DivModUnique(8 * number + wireType, 8, number, wireType);
  }

  lemma ParseOne<M>(schema: Schema<M>, m: M, s: seq<byte>, base: nat)
    requires s != []
    ensures match ParseField(schema, m, s, base)
            case Err(e) => Parse(schema, m, s, base) == Err(e)
            case Ok(f) => f.length == |s| ==> Parse(schema, m, s, base) == Ok(f.message)
  {
    hide ParseField;
    match ParseField(schema, m, s, base)
    case Err(_) =>
    case Ok(f) => if f.length == |s| { assert s[f.length..] == []; }
  }

  lemma ParseWrittenBytes<M>(schema: Schema<M>, m: M, number: nat, payload: seq<byte>, base: nat)
    requires 1 <= number < 0x1000_0000 && schema.kind(number).Bytes?
    requires base + |WriteBytes(number, payload)| < TWO_63
    ensures Parse(schema, m, WriteBytes(number, payload), base) == schema.onBytes(m, number, payload)
  {
    hide ReadVarint, ReadTag, VarintBytes, Parse;
    var prefix := VarintBytes(|payload|);
    var body := prefix + payload;
    var s := WriteBytes(number, payload);
    var n := |TagBytes(number, 2)|;
    TagReadBack(number, 2, body);
    VarintRoundTrip(|payload|, payload);
    assert s[n..] == body;
    assert body[|prefix|..|prefix| + |payload|] == payload;
    assert ReadLength(body, base + n) == Ok(Raw(|payload|, |prefix|));
    ParseOne(schema, m, s, base);
  }

  lemma ParseWrittenNumber<M>(schema: Schema<M>, m: M, number: nat, v: nat, base: nat)
    requires 1 <= number < 0x1000_0000 && schema.kind(number).Number? && v < TWO_64
    ensures Parse(schema, m, WriteNumber(number, v), base) == Ok(schema.onNumber(m, number, v))
  {
    hide ReadVarint, ReadTag, VarintBytes, Parse;
    var s := WriteNumber(number, v);
    var n := |TagBytes(number, 0)|;
    TagReadBack(number, 0, VarintBytes(v));
    VarintRoundTrip(v, []);
    assert VarintBytes(v) + [] == VarintBytes(v);
    assert s[n..] == VarintBytes(v);
    ParseOne(schema, m, s, base);
  }
}
