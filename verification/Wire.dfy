/**
 The record structure of a protobuf message (Protocol Buffers Encoding, section "Message Structure"):
 tags, length-delimited payloads, and the routine that skips unknown fields. Every `Unmarshal` of
 the daemon messages is the same loop around a different `switch`; a `Schema` is that switch.
 Signed 64-bit index arithmetic wraps around as the source's `int` does.
 */
module Wire {
  import opened Bits
  import opened Varint

  // ---------------------------------------------------------------- skipping an unknown field

  /** One token of `skip`: its length (which may run past the input) and its effect on the depth. */
  datatype Token = Token(length: nat, effect: Effect)
  datatype Effect = Leaf | Open | Close

  /** What follows a tag of the given wire type; the length excludes the tag. */
  function ReadPayload(wireType: nat, s: seq<byte>): Result<Token> {
    match wireType
    case 0 =>
      (match ReadVarint(s)
       case Err(e) => Err(e)
       case Ok(v) => Ok(Token(v.length, Leaf)))
    case 1 => Ok(Token(8, Leaf))
    case 2 =>
      (match ReadVarint(s)
       case Err(e) => Err(e)
       case Ok(v) =>
         var length := ToInt64(Word64(v.value));
         if length < 0 then Err(InvalidLength) else Ok(Token(v.length + length, Leaf)))
    case 3 => Ok(Token(0, Open))
    case 4 => Ok(Token(0, Close))
    case 5 => Ok(Token(4, Leaf))
    case _ => Err(IllegalWireType)
  }

  function ReadToken(s: seq<byte>): (r: Result<Token>)
    ensures r.Ok? ==> r.value.length >= 1
  {
    match ReadVarint(s)
    case Err(e) => Err(e)
    case Ok(tag) =>
      match ReadPayload(Word64(tag.value) % 8, s[tag.length..])
      case Err(e) => Err(e)
      case Ok(payload) => Ok(Token(tag.length + payload.length, payload.effect))
  }

  function DepthAfter(effect: Effect, depth: nat): nat
    requires effect.Close? ==> depth > 0
  {
    match effect case Leaf => depth case Open => depth + 1 case Close => depth - 1
  }

  /** The index after the field that starts at `base`, given the input from there on and the open groups. */
  function SkipFrom(s: seq<byte>, base: nat, depth: nat): (r: Result<nat>)
    ensures r.Ok? ==> base < r.value < TWO_63
    decreases |s|
  {
    if s == [] then Err(UnexpectedEOF)
    else match ReadToken(s)
      case Err(e) => Err(e)
      case Ok(token) =>
        if token.effect.Close? && depth == 0 then Err(UnexpectedEndOfGroup)
        else if base + token.length >= TWO_63 then Err(InvalidLength)
        else if DepthAfter(token.effect, depth) == 0 then Ok(base + token.length)
        else if token.length >= |s| then Err(UnexpectedEOF)
        else SkipFrom(s[token.length..], base + token.length, DepthAfter(token.effect, depth))
  }

  /** The same at an index of the whole input; an index past the end is the end of the input. */
  function SkipAt(dAtA: seq<byte>, index: nat, depth: nat): Result<nat> {
    if index <= |dAtA| then SkipFrom(dAtA[index..], index, depth) else Err(UnexpectedEOF)
  }

  lemma SkipStep(dAtA: seq<byte>, index: nat, depth: nat)
    requires index < |dAtA|
    ensures SkipAt(dAtA, index, depth) ==
            match ReadToken(dAtA[index..])
            case Err(e) => Err(e)
            case Ok(token) =>
              if token.effect.Close? && depth == 0 then Err(UnexpectedEndOfGroup)
              else if index + token.length >= TWO_63 then Err(InvalidLength)
              else if DepthAfter(token.effect, depth) == 0 then Ok(index + token.length)
              else SkipAt(dAtA, index + token.length, DepthAfter(token.effect, depth))
  {
    hide ReadToken;
    match ReadToken(dAtA[index..])
    case Err(_) =>
    case Ok(token) =>
      if index + token.length <= |dAtA| {
        assert dAtA[index..][token.length..] == dAtA[index + token.length..];
      }
  }

  lemma SkipEnds(dAtA: seq<byte>)
    ensures SkipAt(dAtA, 0, 0) == SkipFrom(dAtA, 0, 0)
    ensures forall index: nat, depth: nat | index >= |dAtA| :: SkipAt(dAtA, index, depth) == Err(UnexpectedEOF)
  {
    assert dAtA[0..] == dAtA;
  }

  /** `iNdEx` is `index + length`, negative exactly when the signed 64-bit sum wrapped around. */
  predicate After(index: nat, length: nat, iNdEx: int) {
    if index + length < TWO_63 then iNdEx == index + length else iNdEx < 0
  }

  /** The `switch` of the skipping loop. */
  method SkipPayload(dAtA: seq<byte>, index: nat, wireType: nat) returns (r: Result<Effect>, iNdEx: int)
    requires index <= |dAtA| < TWO_63
    ensures match ReadPayload(wireType, dAtA[index..])
            case Err(e) => r == Err(e)
            case Ok(payload) => r == Ok(payload.effect) && After(index, payload.length, iNdEx)
  {
    iNdEx := index;
    match wireType
    case 0 =>
      var v, next := DecodeVarint(dAtA, index, 64);
      if v.Err? { return Err(v.error), iNdEx; }
      iNdEx := next;
      r := Ok(Leaf);
    case 1 =>
      iNdEx := AddInt64(iNdEx, 8);
      r := Ok(Leaf);
    case 2 =>
      var v, next := DecodeVarint(dAtA, index, 64);
      if v.Err? { return Err(v.error), iNdEx; }
      var length := ToInt64(v.value);
      if length < 0 { return Err(InvalidLength), iNdEx; }
      iNdEx := AddInt64(next, length);
      r := Ok(Leaf);
    case 3 => r := Ok(Open);
    case 4 => r := Ok(Close);
    case 5 =>
      iNdEx := AddInt64(iNdEx, 4);
      r := Ok(Leaf);
    case _ => r := Err(IllegalWireType);
  }

  method SkipToken(dAtA: seq<byte>, index: nat) returns (r: Result<Effect>, iNdEx: int)
    requires index <= |dAtA| < TWO_63
    ensures match ReadToken(dAtA[index..])
            case Err(e) => r == Err(e)
            case Ok(token) => r == Ok(token.effect) && After(index, token.length, iNdEx)
  {
    var wire, at := DecodeVarint(dAtA, index, 64);
    if wire.Err? { return Err(wire.error), at; }
    assert dAtA[index..][at - index..] == dAtA[at..];
    r, iNdEx := SkipPayload(dAtA, at, wire.value % 8);
  }

  /** `skipTokenBridge` and `skipPricefeed`. */
  method Skip(dAtA: seq<byte>) returns (r: Result<nat>)
    requires |dAtA| < TWO_63
    ensures r == SkipFrom(dAtA, 0, 0)
  {
    hide ReadToken, SkipFrom, SkipAt, DepthAfter;
    var l := |dAtA|;
    var iNdEx: int, depth: nat := 0, 0;
    SkipEnds(dAtA);
    while iNdEx < l
      invariant 0 <= iNdEx
      invariant SkipAt(dAtA, 0, 0) == SkipAt(dAtA, iNdEx, depth)
      decreases l - iNdEx
    {
      SkipStep(dAtA, iNdEx, depth);
      var effect, next := SkipToken(dAtA, iNdEx);
      if effect.Err? { return Err(effect.error); }
      iNdEx := next;
      if effect.value.Close? && depth == 0 { return Err(UnexpectedEndOfGroup); }
      depth := DepthAfter(effect.value, depth);
      if iNdEx < 0 { return Err(InvalidLength); }
      if depth == 0 { return Ok(iNdEx); }
    }
    return Err(UnexpectedEOF);
  }

  // ---------------------------------------------------------------- messages

  lemma SliceWithin(s: seq<byte>, at: nat, from: nat, to: nat)
    requires at <= from <= to <= |s|
    ensures s[at..][from - at..to - at] == s[from..to]
  {
  }

  /** What the `switch` over field numbers does with a field. */
  datatype Kind = Bytes | Number | Unknown

  /**
   The `switch` of one `Unmarshal`: the kind of each field number, how a length-delimited payload
   (which may itself fail to parse) and how a varint changes the message.
   */
  datatype Schema<!M> = Schema(
    kind: int -> Kind,
    onBytes: (M, int, seq<byte>) -> Result<M>,
    onNumber: (M, int, nat) -> M)

  /** The message after one field, and the number of bytes the field occupies. */
  datatype Field<M> = Field(message: M, length: nat)

  function FieldNumber(tag: nat): int {
    ToInt32(Word64(tag) / 8)
  }

  function WireType(tag: nat): nat {
    Word64(tag) % 8
  }

  /** A tag in front of a field, and the number of bytes it takes. */
  datatype Tag = Tag(number: int, wireType: nat, length: nat)

  function ReadTag(s: seq<byte>): (r: Result<Tag>)
    ensures r.Ok? ==> 1 <= r.value.length <= |s| && r.value.number > 0
  {
    match ReadVarint(s)
    case Err(e) => Err(e)
    case Ok(tag) =>
      if WireType(tag.value) == 4 then Err(EndGroupForNonGroup)
      else if FieldNumber(tag.value) <= 0 then Err(IllegalTag)
      else Ok(Tag(FieldNumber(tag.value), WireType(tag.value), tag.length))
  }

  /** A payload with its length prefix: where it starts and how long it is, for an input that starts at `base`. */
  function ReadLength(s: seq<byte>, base: nat): (r: Result<Raw>)
    ensures r.Ok? ==> r.value.value + r.value.length <= |s| && 1 <= r.value.length
  {
    match ReadVarint(s)
    case Err(e) => Err(e)
    case Ok(v) =>
      var length := ToInt64(Word64(v.value));
      if length < 0 || base + v.length + length >= TWO_63 then Err(InvalidLength)
      else if v.length + length > |s| then Err(UnexpectedEOF)
      else Ok(Raw(length, v.length))
  }

  /** The field whose tag has been read, for an input that starts at `base`. */
  function ParseBody<M>(schema: Schema<M>, m: M, s: seq<byte>, tag: Tag, base: nat): (r: Result<Field<M>>)
    requires 1 <= tag.length <= |s|
    ensures r.Ok? ==> 1 <= r.value.length <= |s|
  {
    var rest := s[tag.length..];
    match schema.kind(tag.number)
    case Bytes =>
      if tag.wireType != 2 then Err(WrongWireType)
      else (match ReadLength(rest, base + tag.length)
            case Err(e) => Err(e)
            case Ok(prefix) =>
              match schema.onBytes(m, tag.number, rest[prefix.length..prefix.length + prefix.value])
              case Err(e) => Err(e)
              case Ok(m') => Ok(Field(m', tag.length + prefix.length + prefix.value)))
    case Number =>
      if tag.wireType != 0 then Err(WrongWireType)
      else (match ReadVarint(rest)
            case Err(e) => Err(e)
            case Ok(v) => Ok(Field(schema.onNumber(m, tag.number, v.value), tag.length + v.length)))
    case Unknown =>
      match SkipFrom(s, 0, 0)
      case Err(e) => Err(e)
      case Ok(skippy) =>
        if base + skippy >= TWO_63 then Err(InvalidLength)
        else if skippy > |s| then Err(UnexpectedEOF)
        else Ok(Field(m, skippy))
  }

  function ParseField<M>(schema: Schema<M>, m: M, s: seq<byte>, base: nat): (r: Result<Field<M>>)
    ensures r.Ok? ==> 1 <= r.value.length <= |s|
  {
    match ReadTag(s)
    case Err(e) => Err(e)
    case Ok(tag) => ParseBody(schema, m, s, tag, base)
  }

  /** The message that `Unmarshal` makes of `m` from the bytes `s`, which start at index `base` of its input. */
  function Parse<M>(schema: Schema<M>, m: M, s: seq<byte>, base: nat): Result<M>
    decreases |s|
  {
    if s == [] then Ok(m)
    else match ParseField(schema, m, s, base)
      case Err(e) => Err(e)
      case Ok(field) => Parse(schema, field.message, s[field.length..], base + field.length)
  }

  // ---------------------------------------------------------------- the parts of the parsing loop

  /** The tag of the field at `index`. */
  method DecodeTag(dAtA: seq<byte>, index: nat) returns (r: Result<Tag>)
    requires index <= |dAtA|
    ensures r == ReadTag(dAtA[index..])
  {
    hide ReadVarint;
    var wire, iNdEx := DecodeVarint(dAtA, index, 64);
    if wire.Err? { return Err(wire.error); }
    var fieldNum, wireType := ToInt32(wire.value / 8), wire.value % 8;
    if wireType == 4 { return Err(EndGroupForNonGroup); }
    if fieldNum <= 0 { return Err(IllegalTag); }
    return Ok(Tag(fieldNum, wireType, iNdEx - index));
  }

  /** The bounds of the length-delimited payload whose length prefix is at `index`. */
  method DecodeLength(dAtA: seq<byte>, index: nat) returns (r: Result<nat>, iNdEx: nat)
    requires index <= |dAtA| < TWO_63
    ensures match ReadLength(dAtA[index..], index)
            case Err(e) => r == Err(e)
            case Ok(prefix) => r == Ok(iNdEx + prefix.value) && iNdEx == index + prefix.length
    ensures r.Ok? ==> index < iNdEx <= r.value <= |dAtA|
  {
    hide ReadVarint;
    var v;
    v, iNdEx := DecodeVarint(dAtA, index, 64);
    if v.Err? { return Err(v.error), iNdEx; }
    var byteLen := ToInt64(v.value);
    if byteLen < 0 { return Err(InvalidLength), iNdEx; }
    var postIndex := AddInt64(iNdEx, byteLen);
    if postIndex < 0 { return Err(InvalidLength), iNdEx; }
    if postIndex > |dAtA| { return Err(UnexpectedEOF), iNdEx; }
    r := Ok(postIndex);
  }

  /** The index after the unknown field at `preIndex`. */
  method SkipUnknown(dAtA: seq<byte>, preIndex: nat) returns (r: Result<nat>)
    requires preIndex <= |dAtA| < TWO_63
    ensures match SkipFrom(dAtA[preIndex..], 0, 0)
            case Err(e) => r == Err(e)
            case Ok(n) => r == if preIndex + n >= TWO_63 then Err(InvalidLength)
                               else if preIndex + n > |dAtA| then Err(UnexpectedEOF)
                               else Ok(preIndex + n)
  {
    hide SkipFrom;
    var skippy := Skip(dAtA[preIndex..]);
    if skippy.Err? { return skippy; }
    var iNdEx := AddInt64(preIndex, skippy.value);
    if iNdEx < 0 { return Err(InvalidLength); }
    if iNdEx > |dAtA| { return Err(UnexpectedEOF); }
    return Ok(iNdEx);
  }

  /** The rest of the parse, from an index of the whole input. */
  function ParseFrom<M>(schema: Schema<M>, m: M, dAtA: seq<byte>, index: nat): Result<M>
    requires index <= |dAtA|
  {
    Parse(schema, m, dAtA[index..], index)
  }

  lemma ParseStep<M>(schema: Schema<M>, m: M, dAtA: seq<byte>, index: nat)
    requires index < |dAtA|
    ensures match ParseField(schema, m, dAtA[index..], index)
            case Err(e) => ParseFrom(schema, m, dAtA, index) == Err(e)
            case Ok(f) => ParseFrom(schema, m, dAtA, index) == ParseFrom(schema, f.message, dAtA, index + f.length)
  {
    hide ParseField;
    match ParseField(schema, m, dAtA[index..], index)
    case Err(_) =>
    case Ok(f) => assert dAtA[index..][f.length..] == dAtA[index + f.length..];
  }

  lemma ParseEnds<M>(schema: Schema<M>, m: M, dAtA: seq<byte>)
    ensures ParseFrom(schema, m, dAtA, |dAtA|) == Ok(m)
    ensures ParseFrom(schema, m, dAtA, 0) == Parse(schema, m, dAtA, 0)
  {
    hide ParseField;
    assert dAtA[|dAtA|..] == [] && dAtA[0..] == dAtA;
  }

  lemma SuffixOfSuffix(s: seq<byte>, i: nat, j: nat)
    requires i <= j <= |s|
    ensures s[i..][j - i..] == s[j..]
  {
  }

  lemma SliceOfSuffix(s: seq<byte>, at: nat, i: nat, j: nat)
    requires at <= i <= j <= |s|
    ensures s[at..][i - at..j - at] == s[i..j]
  {
  }
}
