/**
 What holds of every message, whatever its `switch`: fields are read independently of what follows
 them, concatenating encodings merges messages, and unknown fields do not change the result. The
 skipping routine accepts exactly the grammar of unknown fields, nested groups included.
 */
module WireProperties {
  import opened Bits
  import opened Varint
  import opened Wire

  // ---------------------------------------------------------------- the grammar of unknown fields

  /** A field as it stands in the input; tags, varints and lengths need not be in shortest form. */
  datatype UnknownField =
    | VarintField(tag: seq<byte>, value: seq<byte>)
    | Fixed64Field(tag: seq<byte>, payload: seq<byte>)
    | BytesField(tag: seq<byte>, prefix: seq<byte>, payload: seq<byte>)
    | GroupField(tag: seq<byte>, fields: seq<UnknownField>, end: seq<byte>)
    | Fixed32Field(tag: seq<byte>, payload: seq<byte>)

  ghost predicate IsTag(tag: seq<byte>, wireType: nat) {
    IsVarint(tag) && WireType(Base128(tag)) == wireType
  }

  ghost predicate WellFormed(u: UnknownField) {
    match u
    case VarintField(tag, value) => IsTag(tag, 0) && IsVarint(value)
    case Fixed64Field(tag, payload) => IsTag(tag, 1) && |payload| == 8
    case BytesField(tag, prefix, payload) =>
      IsTag(tag, 2) && IsVarint(prefix) && ToInt64(Word64(Base128(prefix))) == |payload|
    case GroupField(tag, fields, end) =>
      IsTag(tag, 3) && IsTag(end, 4) && forall f | f in fields :: WellFormed(f)
    case Fixed32Field(tag, payload) => IsTag(tag, 5) && |payload| == 4
  }

  function Encode(u: UnknownField): seq<byte>
    decreases u, 0
  {
    match u
    case VarintField(tag, value) => tag + value
    case Fixed64Field(tag, payload) => tag + payload
    case BytesField(tag, prefix, payload) => tag + prefix + payload
    case GroupField(tag, fields, end) => tag + (EncodeAll(fields) + end)
    case Fixed32Field(tag, payload) => tag + payload
  }

  function EncodeAll(us: seq<UnknownField>): seq<byte>
    decreases us, 1
  {
    if us == [] then [] else Encode(us[0]) + EncodeAll(us[1..])
  }

  // ---------------------------------------------------------------- skip accepts the grammar

  /** What the skipping loop does at a token boundary: stop when no group is open, else go on. */
  function Settle(s: seq<byte>, base: nat, depth: nat): Result<nat> {
    if depth == 0 then Ok(base) else SkipFrom(s, base, depth)
  }

  lemma SkipOne(s: seq<byte>, base: nat, depth: nat, token: Token)
    requires ReadToken(s) == Ok(token) && token.length <= |s| && base + token.length < TWO_63
    requires token.effect.Close? ==> depth > 0
    ensures SkipFrom(s, base, depth) == Settle(s[token.length..], base + token.length, DepthAfter(token.effect, depth))
  {
    hide ReadToken;
    if token.length == |s| { assert s[token.length..] == []; }
  }

  lemma ReadPayloadPrefix(wireType: nat, s: seq<byte>, rest: seq<byte>)
    requires ReadPayload(wireType, s).Ok?
    ensures ReadPayload(wireType, s + rest) == ReadPayload(wireType, s)
  {
    if ReadVarint(s).Ok? { ReadVarintPrefix(s, rest); }
  }

  lemma ReadTokenPrefix(s: seq<byte>, rest: seq<byte>)
    requires ReadToken(s).Ok?
    ensures ReadToken(s + rest) == ReadToken(s)
  {
    hide ReadVarint, ReadPayload;
    ReadVarintPrefix(s, rest);
    var tag := ReadVarint(s).value;
    ReadPayloadPrefix(WireType(tag.value), s[tag.length..], rest);
    assert (s + rest)[tag.length..] == s[tag.length..] + rest;
  }

  lemma VarintIsRead(v: seq<byte>, rest: seq<byte>)
    requires IsVarint(v)
    ensures ReadVarint(v + rest) == Ok(Raw(Base128(v), |v|))
  {
    ReadVarintPrefix(v, rest);
    assert v[..|v|] == v;
  }

  function AfterTag(tag: seq<byte>, payload: Result<Token>): Result<Token> {
    match payload
    case Err(e) => Err(e)
    case Ok(p) => Ok(Token(|tag| + p.length, p.effect))
  }

  lemma TagIsRead(tag: seq<byte>, wireType: nat, rest: seq<byte>)
    requires IsTag(tag, wireType)
    ensures ReadToken(tag + rest) == AfterTag(tag, ReadPayload(wireType, rest))
  {
    hide ReadVarint, ReadPayload, Base128;
    VarintIsRead(tag, rest);
    assert (tag + rest)[|tag|..] == rest;
  }

  /** A well-formed field that is not a group is one token. */
  lemma LeafIsRead(u: UnknownField, rest: seq<byte>)
    requires WellFormed(u) && !u.GroupField?
    ensures ReadToken(Encode(u) + rest) == Ok(Token(|Encode(u)|, Leaf))
  {
    hide ReadVarint, ReadToken;
    var body := Encode(u)[|u.tag|..] + rest;
    assert Encode(u) + rest == u.tag + body;
    match u
    case VarintField(tag, value) =>
      assert body == value + rest;
      TagIsRead(tag, 0, body);
      VarintIsRead(value, rest);
    case Fixed64Field(tag, payload) => TagIsRead(tag, 1, body);
    case BytesField(tag, prefix, payload) =>
      assert body == prefix + (payload + rest);
      TagIsRead(tag, 2, body);
      VarintIsRead(prefix, payload + rest);
    case Fixed32Field(tag, payload) => TagIsRead(tag, 5, body);
  }

  /** Whatever groups are open around it, a well-formed field is skipped as a whole. */
  lemma {:induction false} SkipField(u: UnknownField, rest: seq<byte>, base: nat, depth: nat)
    requires WellFormed(u) && base + |Encode(u)| < TWO_63
    ensures SkipFrom(Encode(u) + rest, base, depth) == Settle(rest, base + |Encode(u)|, depth)
    decreases u, 0
  {
    hide ReadVarint, ReadToken, SkipFrom;
    var s := Encode(u) + rest;
    if u.GroupField? {
      var inner := EncodeAll(u.fields);
      assert s == u.tag + (inner + (u.end + rest));
      TagIsRead(u.tag, 3, inner + (u.end + rest));
      SkipOne(s, base, depth, Token(|u.tag|, Open));
      assert s[|u.tag|..] == inner + (u.end + rest);
      SkipFields(u.fields, u.end + rest, base + |u.tag|, depth + 1);
      TagIsRead(u.end, 4, rest);
      SkipOne(u.end + rest, base + |u.tag| + |inner|, depth + 1, Token(|u.end|, Close));
      assert (u.end + rest)[|u.end|..] == rest;
    } else {
      LeafIsRead(u, rest);
      SkipOne(s, base, depth, Token(|Encode(u)|, Leaf));
      assert s[|Encode(u)|..] == rest;
    }
  }

  lemma {:induction false} SkipFields(us: seq<UnknownField>, rest: seq<byte>, base: nat, depth: nat)
    requires (forall u | u in us :: WellFormed(u)) && base + |EncodeAll(us)| < TWO_63 && depth > 0
    ensures SkipFrom(EncodeAll(us) + rest, base, depth) == SkipFrom(rest, base + |EncodeAll(us)|, depth)
    decreases us, 1
  {
    hide SkipFrom;
    if us == [] {
      assert EncodeAll(us) + rest == rest;
    } else {
      var u, others := us[0], us[1..];
      SkipField(u, EncodeAll(others) + rest, base, depth);
      SkipFields(others, rest, base + |Encode(u)|, depth);
      assert EncodeAll(us) + rest == Encode(u) + (EncodeAll(others) + rest);
    }
  }

  // ---------------------------------------------------------------- skip accepts nothing else

  lemma TagOf(s: seq<byte>) returns (tag: seq<byte>, wireType: nat)
    requires ReadToken(s).Ok?
    ensures ReadVarint(s).Ok? && tag == s[..ReadVarint(s).value.length] && IsTag(tag, wireType)
    ensures ReadPayload(wireType, s[|tag|..]).Ok?
    ensures ReadToken(s).value.length == |tag| + ReadPayload(wireType, s[|tag|..]).value.length
    ensures ReadToken(s).value.effect == ReadPayload(wireType, s[|tag|..]).value.effect
  {
    hide ReadPayload;
    tag := FrontVarint(s);
    wireType := WireType(Base128(tag));
  }

  lemma FrontVarint(s: seq<byte>) returns (v: seq<byte>)
    requires ReadVarint(s).Ok?
    ensures v == s[..ReadVarint(s).value.length] && IsVarint(v)
    ensures ReadVarint(s).value == Raw(Base128(v), |v|)
  {
    var n := Continuations(s);
    v := s[..n + 1];
    ReadVarintAfter(v, n);
    assert v[..n + 1] == v;
  }

  lemma GroupTagOf(s: seq<byte>) returns (tag: seq<byte>)
    requires ReadToken(s).Ok? && !ReadToken(s).value.effect.Leaf?
    ensures |tag| == ReadToken(s).value.length <= |s| && tag == s[..|tag|]
    ensures IsTag(tag, if ReadToken(s).value.effect.Open? then 3 else 4)
  {
    var wireType;
    tag, wireType := TagOf(s);
  }

  lemma LeafOf(s: seq<byte>) returns (u: UnknownField)
    requires ReadToken(s).Ok? && ReadToken(s).value.effect.Leaf? && ReadToken(s).value.length <= |s|
    ensures WellFormed(u) && Encode(u) == s[..ReadToken(s).value.length]
  {
    hide ReadVarint, ReadToken;
    var tag, wireType := TagOf(s);
    var length := ReadToken(s).value.length;
    var body := s[|tag|..];
    match wireType
    case 0 =>
      var v := FrontVarint(body);
      u := VarintField(tag, v);
      assert s[..length] == tag + v;
    case 1 =>
      u := Fixed64Field(tag, s[|tag|..length]);
      assert s[..length] == tag + s[|tag|..length];
    case 2 =>
      var v := FrontVarint(body);
      u := BytesField(tag, v, s[|tag| + |v|..length]);
      assert s[..length] == tag + v + s[|tag| + |v|..length];
    case 5 =>
      u := Fixed32Field(tag, s[|tag|..length]);
      assert s[..length] == tag + s[|tag|..length];
  }

  lemma EncodeAllCons(u: UnknownField, us: seq<UnknownField>)
    ensures EncodeAll([u] + us) == Encode(u) + EncodeAll(us)
  {
    assert ([u] + us)[1..] == us;
  }

  /** Inside `depth` open groups, what is skipped starts with complete fields and the end of the innermost group. */
  ghost predicate IsGroupBody(s: seq<byte>, base: nat, depth: nat, us: seq<UnknownField>, end: seq<byte>, rest: seq<byte>)
    requires depth > 0
  {
    && (forall u | u in us :: WellFormed(u))
    && IsTag(end, 4)
    && s == EncodeAll(us) + (end + rest)
    && Settle(rest, base + |s| - |rest|, depth - 1) == SkipFrom(s, base, depth)
  }

  lemma PrependField(s: seq<byte>, base: nat, depth: nat, u: UnknownField, after: seq<byte>,
                     us: seq<UnknownField>, end: seq<byte>, rest: seq<byte>)
    requires depth > 0 && WellFormed(u) && s == Encode(u) + after
    requires SkipFrom(s, base, depth) == SkipFrom(after, base + |s| - |after|, depth)
    requires IsGroupBody(after, base + |s| - |after|, depth, us, end, rest)
    ensures IsGroupBody(s, base, depth, [u] + us, end, rest)
  {
    hide SkipFrom, Encode, EncodeAll, IsTag;
    EncodeAllCons(u, us);
    assert s == EncodeAll([u] + us) + (end + rest);
  }

  lemma {:induction false} SkippedGroupBody(s: seq<byte>, base: nat, depth: nat)
    returns (us: seq<UnknownField>, end: seq<byte>, rest: seq<byte>)
    requires depth > 0 && SkipFrom(s, base, depth).Ok? && SkipFrom(s, base, depth).value <= base + |s|
    ensures IsGroupBody(s, base, depth, us, end, rest)
    decreases |s|, 1
  {
    hide ReadVarint, ReadToken, SkipFrom, Encode, EncodeAll, IsTag, WellFormed, IsGroupBody;
    var token := SkippedToken(s, base, depth);
    var after := s[token.length..];
    if token.effect.Close? {
      end := GroupTagOf(s);
      us, rest := [], after;
      EmptyGroupBody(s, base, depth, end, rest);
    } else if token.effect.Leaf? {
      var u := LeafOf(s);
      us, end, rest := SkippedGroupBody(after, base + token.length, depth);
      PrependField(s, base, depth, u, after, us, end, rest);
      us := [u] + us;
    } else {
      var u, r := SkippedGroup(s, base, depth);
      us, end, rest := SkippedGroupBody(r, base + |s| - |r|, depth);
      PrependField(s, base, depth, u, r, us, end, rest);
      us := [u] + us;
    }
  }

  lemma EmptyGroupBody(s: seq<byte>, base: nat, depth: nat, end: seq<byte>, rest: seq<byte>)
    requires depth > 0 && IsTag(end, 4) && s == end + rest
    requires SkipFrom(s, base, depth) == Settle(rest, base + |end|, depth - 1)
    ensures IsGroupBody(s, base, depth, [], end, rest)
  {
    hide SkipFrom, IsTag;
    assert s == [] + (end + rest);
  }

  /** The same for a whole nested group, whatever is open around it. */
  lemma {:induction false} SkippedGroup(s: seq<byte>, base: nat, depth: nat)
    returns (u: UnknownField, rest: seq<byte>)
    requires SkipFrom(s, base, depth).Ok? && SkipFrom(s, base, depth).value <= base + |s|
    requires ReadToken(s).Ok? && ReadToken(s).value.effect.Open?
    ensures WellFormed(u) && s == Encode(u) + rest && |rest| < |s|
    ensures Settle(rest, base + |s| - |rest|, depth) == SkipFrom(s, base, depth)
    decreases |s|, 0
  {
    hide ReadVarint, ReadToken, SkipFrom, Encode, EncodeAll, IsTag, WellFormed, IsGroupBody;
    var token := SkippedToken(s, base, depth);
    var tag := GroupTagOf(s);
    var after := s[|tag|..];
    var us, end, r := SkippedGroupBody(after, base + |tag|, depth + 1);
    u := GroupFromBody(s, tag, base, depth, us, end, r);
    rest := r;
  }

  lemma GroupFromBody(s: seq<byte>, tag: seq<byte>, base: nat, depth: nat,
                      us: seq<UnknownField>, end: seq<byte>, rest: seq<byte>) returns (u: UnknownField)
    requires IsTag(tag, 3) && |tag| <= |s| && tag == s[..|tag|] && |tag| > 0
    requires IsGroupBody(s[|tag|..], base + |tag|, depth + 1, us, end, rest)
    ensures WellFormed(u) && s == Encode(u) + rest && |rest| < |s|
    ensures Settle(rest, base + |s| - |rest|, depth) == SkipFrom(s[|tag|..], base + |tag|, depth + 1)
  {
    hide SkipFrom, EncodeAll, IsTag;
    u := GroupField(tag, us, end);
    var after := s[|tag|..];
    assert s == tag + after;
    assert Encode(u) == tag + (EncodeAll(us) + end);
    assert after == EncodeAll(us) + (end + rest);
    assert s == Encode(u) + rest;
  }

  /** A successful run of the skipping loop starts with a token inside the input. */
  lemma SkippedToken(s: seq<byte>, base: nat, depth: nat) returns (token: Token)
    requires SkipFrom(s, base, depth).Ok? && SkipFrom(s, base, depth).value <= base + |s|
    ensures ReadToken(s) == Ok(token) && 1 <= token.length <= |s| && base + token.length < TWO_63 && (token.effect.Close? ==> depth > 0)
    ensures SkipFrom(s, base, depth) == Settle(s[token.length..], base + token.length, DepthAfter(token.effect, depth))
  {
    hide ReadToken;
    token := ReadToken(s).value;
  }

  /** The skipping routine accepts a field inside the input exactly when it is a well-formed one. */
  lemma SkipAcceptsGrammar(s: seq<byte>, n: nat)
    requires n <= |s| < TWO_63
    ensures SkipFrom(s, 0, 0) == Ok(n) <==> exists u :: WellFormed(u) && Encode(u) == s[..n]
  {
    hide ReadVarint, ReadToken, SkipFrom, Encode, WellFormed;
    if SkipFrom(s, 0, 0) == Ok(n) {
      var u := SkippedField(s);
      assert Encode(u) == s[..n];
    }
    forall u | WellFormed(u) && Encode(u) == s[..n] ensures SkipFrom(s, 0, 0) == Ok(n) {
      SkipField(u, s[n..], 0, 0);
      assert s == Encode(u) + s[n..];
    }
  }

  lemma SkippedField(s: seq<byte>) returns (u: UnknownField)
    requires SkipFrom(s, 0, 0).Ok? && SkipFrom(s, 0, 0).value <= |s|
    ensures WellFormed(u) && Encode(u) == s[..SkipFrom(s, 0, 0).value]
  {
    hide ReadVarint, ReadToken, SkipFrom, Encode, EncodeAll, IsTag, WellFormed;
    var token := SkippedToken(s, 0, 0);
    if token.effect.Leaf? {
      u := LeafOf(s);
    } else {
      var rest;
      u, rest := SkippedGroup(s, 0, 0);
      assert s[..|s| - |rest|] == Encode(u);
    }
  }
}
