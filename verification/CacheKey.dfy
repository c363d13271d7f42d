/** The key of the response cache: how it is built, and when two requests can share one. */
module CacheKey {
  import opened Bits
  import opened MarketParams
  import opened Sorting

  datatype Reader = Reader(method': Text, baseURL: Text, query: Text, headers: map<Text, Text>)

  const NEWLINE: byte := 10
  const EQUALS: byte := 61

  // ---------------------------------------------------------------- sorted names

  predicate Less(a: Text, b: Text) {
    b != [] && (a == [] || a[0] < b[0] || (a[0] == b[0] && Less(a[1..], b[1..])))
  }

  lemma {:induction false} LessOrder(a: Text, b: Text)
    ensures !(Less(a, b) && Less(b, a)) && !Less(a, a)
    ensures Less(a, b) || Less(b, a) || a == b
    decreases |a|
  {
    if a != [] { LessOrder(a[1..], a[1..]); }
    if a != [] && b != [] && a[0] == b[0] {
      LessOrder(a[1..], b[1..]);
      assert a == [a[0]] + a[1..] && b == [b[0]] + b[1..];
    }
  }

  lemma {:induction false} LessTransitive(a: Text, b: Text, c: Text)
    requires Less(a, b) && Less(b, c)
    ensures Less(a, c)
    decreases |a|
  {
    if a != [] && a[0] == b[0] == c[0] { LessTransitive(a[1..], b[1..], c[1..]); }
  }

  predicate AtMost(a: Text, b: Text) {
    !Less(b, a)
  }

  lemma TextOrder()
    ensures TotalOrder(AtMost)
  {
    forall a, b ensures (AtMost(a, b) || AtMost(b, a)) && (AtMost(a, b) && AtMost(b, a) ==> a == b) {
      LessOrder(a, b);
    }
    forall a, b, c | AtMost(a, b) && AtMost(b, c) ensures AtMost(a, c) {
      LessOrder(a, b);
      LessOrder(b, c);
      LessOrder(a, c);
      if Less(c, a) && Less(a, b) { LessTransitive(c, a, b); }
    }
  }

  // ---------------------------------------------------------------- the key

  function Line(k: Text, v: Text): Text {
    k + [EQUALS] + v + [NEWLINE]
  }

  function Lines(ks: seq<Text>, headers: map<Text, Text>): Text
    requires forall k | k in ks :: k in headers
  {
    if ks == [] then [] else Line(ks[0], headers[ks[0]]) + Lines(ks[1..], headers)
  }

  function Front(r: Reader): Text {
    r.method' + [NEWLINE] + (r.baseURL + [NEWLINE] + (r.query + [NEWLINE]))
  }

  /** `ks` are the header names in order. */
  ghost predicate Names(r: Reader, ks: seq<Text>) {
    IsSorted(AtMost, ks) && Visits(ks, r.headers.Keys)
  }

  lemma NamesUnique(r: Reader, ks: seq<Text>, ls: seq<Text>)
    requires Names(r, ks) && Names(r, ls)
    ensures ks == ls && forall k :: k in ks <==> k in r.headers
  {
    TextOrder();
    SortedUnique(AtMost, ks, ls);
    VisitsKeys(ks, r.headers.Keys);
  }

  /** There is one key for a request, whatever order its headers are visited in. */
  ghost predicate IsKey(r: Reader, key: Text) {
    exists ks :: Names(r, ks) && (forall k | k in ks :: k in r.headers) && key == Front(r) + Lines(ks, r.headers)
  }

  lemma KeyUnique(r: Reader, a: Text, b: Text)
    requires IsKey(r, a) && IsKey(r, b)
    ensures a == b
  {
    var ks :| Names(r, ks) && (forall k | k in ks :: k in r.headers) && a == Front(r) + Lines(ks, r.headers);
    var ls :| Names(r, ls) && (forall k | k in ls :: k in r.headers) && b == Front(r) + Lines(ls, r.headers);
    NamesUnique(r, ks, ls);
  }

  lemma {:induction false} LinesAppend(ks: seq<Text>, k: Text, headers: map<Text, Text>)
    requires k in headers && forall x | x in ks :: x in headers
    ensures Lines(ks + [k], headers) == Lines(ks, headers) + Line(k, headers[k])
  {
    if ks == [] {
      assert ks + [k] == [k];
    } else {
      assert (ks + [k])[1..] == ks[1..] + [k];
      LinesAppend(ks[1..], k, headers);
    }
  }

  method BuildKey(r: Reader) returns (key: Text)
    ensures IsKey(r, key)
  {
    hide Line, Less, AtMost, IsSorted;
    var b := r.method';
    b := b + [NEWLINE];
    b := b + r.baseURL;
    b := b + [NEWLINE];
    b := b + r.query;
    b := b + [NEWLINE];
    assert b == Front(r);
    var keys := SortedNames(r);
    for i := 0 to |keys|
      invariant b == Front(r) + Lines(keys[..i], r.headers)
    {
      LinesAppend(keys[..i], keys[i], r.headers);
      assert keys[..i + 1] == keys[..i] + [keys[i]];
      b := b + Line(keys[i], r.headers[keys[i]]);
    }
    assert keys[..|keys|] == keys;
    key := b;
  }

  method SortedNames(r: Reader) returns (keys: seq<Text>)
    ensures Names(r, keys) && forall k | k in keys :: k in r.headers
  {
    hide IsSorted, Sort, AtMost;
    var names := ListElements(r.headers.Keys);
    TextOrder();
    SortSorts(AtMost, names);
    keys := Sort(AtMost, names);
    VisitsKeys(keys, r.headers.Keys);
  }

  // ---------------------------------------------------------------- when keys tell requests apart

  ghost predicate PlainHeaders(headers: map<Text, Text>) {
    forall k | k in headers :: NEWLINE !in k && EQUALS !in k && NEWLINE !in headers[k]
  }

  /** No part of the request contains a newline, and no header name an equals sign. */
  ghost predicate Plain(r: Reader) {
    NEWLINE !in r.method' && NEWLINE !in r.baseURL && NEWLINE !in r.query && PlainHeaders(r.headers)
  }

  /** A text is determined up to its first separator. */
  lemma SplitAtFirst(c: byte, a: Text, x: Text, b: Text, y: Text)
    requires c !in a && c !in b && a + [c] + x == b + [c] + y
    ensures a == b && x == y
  {
    var s := a + [c] + x;
    assert s[|a|] == c && s[|b|] == c;
    assert forall i | 0 <= i < |a| :: s[i] == a[i] && a[i] != c;
    assert forall i | 0 <= i < |b| :: s[i] == b[i] && b[i] != c;
    assert s[..|a|] == a && s[..|b|] == b;
    assert s[|a| + 1..] == x && s[|b| + 1..] == y;
  }

  lemma SplitLine(k: Text, v: Text, x: Text, l: Text, w: Text, y: Text)
    requires NEWLINE !in k + v && NEWLINE !in l + w && EQUALS !in k && EQUALS !in l
    requires Line(k, v) + x == Line(l, w) + y
    ensures k == l && v == w && x == y
  {
    assert Line(k, v) + x == (k + [EQUALS] + v) + [NEWLINE] + x;
    assert Line(l, w) + y == (l + [EQUALS] + w) + [NEWLINE] + y;
    SplitAtFirst(NEWLINE, k + [EQUALS] + v, x, l + [EQUALS] + w, y);
    SplitAtFirst(EQUALS, k, v, l, w);
  }

  lemma {:induction false} SplitLines(ks: seq<Text>, g: map<Text, Text>, ls: seq<Text>, h: map<Text, Text>)
    requires (forall k | k in ks :: k in g) && (forall k | k in ls :: k in h)
    requires PlainHeaders(g) && PlainHeaders(h) && Lines(ks, g) == Lines(ls, h)
    ensures ks == ls && forall k | k in ks :: g[k] == h[k]
  {
    if ks == [] || ls == [] {
      assert |Lines(ks, g)| == |Lines(ls, h)|;
    } else {
      SplitLine(ks[0], g[ks[0]], Lines(ks[1..], g), ls[0], h[ls[0]], Lines(ls[1..], h));
      SplitLines(ks[1..], g, ls[1..], h);
      assert ks == [ks[0]] + ks[1..] && ls == [ls[0]] + ls[1..];
    }
  }

  lemma SplitFront(r: Reader, x: Text, s: Reader, y: Text)
    requires NEWLINE !in r.method' && NEWLINE !in s.method' && NEWLINE !in r.baseURL && NEWLINE !in s.baseURL
    requires Front(r) + x == Front(s) + y
    ensures r.method' == s.method' && r.baseURL == s.baseURL && r.query + [NEWLINE] + x == s.query + [NEWLINE] + y
  {
    var u, v := r.baseURL + [NEWLINE] + (r.query + [NEWLINE] + x), s.baseURL + [NEWLINE] + (s.query + [NEWLINE] + y);
    assert Front(r) + x == r.method' + [NEWLINE] + u;
    assert Front(s) + y == s.method' + [NEWLINE] + v;
    SplitAtFirst(NEWLINE, r.method', u, s.method', v);
    SplitAtFirst(NEWLINE, r.baseURL, r.query + [NEWLINE] + x, s.baseURL, s.query + [NEWLINE] + y);
  }

  /** Plain requests with the same key are the same request. */
  lemma KeyInjective(r: Reader, s: Reader, key: Text)
    requires IsKey(r, key) && IsKey(s, key) && Plain(r) && Plain(s)
    ensures r == s
  {
    hide Front, Names, Lines;
    var ks :| Names(r, ks) && (forall k | k in ks :: k in r.headers) && key == Front(r) + Lines(ks, r.headers);
    var ls :| Names(s, ls) && (forall k | k in ls :: k in s.headers) && key == Front(s) + Lines(ls, s.headers);
    var x, y := Lines(ks, r.headers), Lines(ls, s.headers);
    SplitFront(r, x, s, y);
    SplitAtFirst(NEWLINE, r.query, x, s.query, y);
    SplitLines(ks, r.headers, ls, s.headers);
    NamesUnique(r, ks, ks);
    NamesUnique(s, ls, ls);
    assert r.headers == s.headers;
  }

  /** Between requests with the same headers, the body may contain newlines. */
  lemma KeyInjectiveForSameHeaders(r: Reader, s: Reader, key: Text)
    requires IsKey(r, key) && IsKey(s, key) && r.headers == s.headers
    requires NEWLINE !in r.method' && NEWLINE !in s.method' && NEWLINE !in r.baseURL && NEWLINE !in s.baseURL
    ensures r == s
  {
    hide Front, Less, Lines;
    var ks :| Names(r, ks) && (forall k | k in ks :: k in r.headers) && key == Front(r) + Lines(ks, r.headers);
    var ls :| Names(s, ls) && (forall k | k in ls :: k in s.headers) && key == Front(s) + Lines(ls, s.headers);
    NamesUnique(r, ks, ls);
    var x := Lines(ks, r.headers);
    SplitFront(r, x, s, x);
    var a, b := r.query + [NEWLINE] + x, s.query + [NEWLINE] + x;
    assert |a| == |r.query| + 1 + |x| && |b| == |s.query| + 1 + |x|;
    assert a[..|r.query|] == r.query && b[..|s.query|] == s.query;
  }

  // ---------------------------------------------------------------- when a key identifies its request

  function Newlines(s: Text): nat {
    if s == [] then 0 else (if s[0] == NEWLINE then 1 else 0) + Newlines(s[1..])
  }

  lemma {:induction false} NewlinesConcat(a: Text, b: Text)
    ensures Newlines(a + b) == Newlines(a) + Newlines(b)
    decreases |a|
  {
    if a == [] {
      assert a + b == b;
    } else {
      assert (a + b)[1..] == a[1..] + b;
      NewlinesConcat(a[1..], b);
    }
  }

  lemma {:induction false} NoNewlines(s: Text)
    ensures Newlines(s) == 0 <==> NEWLINE !in s
  {
    if s != [] {
      NoNewlines(s[1..]);
      assert s == [s[0]] + s[1..];
    }
  }

  lemma NewlinesWithEnd(a: Text, rest: Text)
    ensures Newlines(a + [NEWLINE] + rest) == Newlines(a) + 1 + Newlines(rest)
  {
    NewlinesConcat(a + [NEWLINE], rest);
    NewlinesConcat(a, [NEWLINE]);
    assert Newlines([NEWLINE]) == 1 + Newlines([]);
  }

  lemma FrontNewlines(r: Reader)
    ensures Newlines(Front(r)) == 3 + Newlines(r.method') + Newlines(r.baseURL) + Newlines(r.query)
  {
    hide Newlines;
    NewlinesWithEnd(r.query, []);
    assert r.query + [NEWLINE] + [] == r.query + [NEWLINE];
    NewlinesWithEnd(r.baseURL, r.query + [NEWLINE]);
    NewlinesWithEnd(r.method', r.baseURL + [NEWLINE] + (r.query + [NEWLINE]));
    NothingWritten();
  }

  lemma NothingWritten()
    ensures Newlines([]) == 0
  {
  }

  /** Every header line ends in a newline. */
  lemma {:induction false} LinesEnd(ks: seq<Text>, headers: map<Text, Text>)
    requires forall k | k in ks :: k in headers
    ensures Newlines(Lines(ks, headers)) >= |ks|
    ensures ks != [] ==> var lines := Lines(ks, headers); lines != [] && lines[|lines| - 1] == NEWLINE
  {
    hide Newlines;
    if ks != [] {
      LinesEnd(ks[1..], headers);
      NewlinesWithEnd(ks[0] + [EQUALS] + headers[ks[0]], Lines(ks[1..], headers));
    }
  }

  /** The key spelled out: method, URL and body, each with a newline, and then the headers. */
  lemma KeySpelled(r: Reader, key: Text) returns (ks: seq<Text>, lines: seq<Text>)
    requires IsKey(r, key)
    ensures (forall k :: k in ks <==> k in r.headers) && |lines| == |ks| == |r.headers.Keys|
    ensures forall i, j :: 0 <= i < j < |ks| ==> ks[i] != ks[j] && ComesBefore(ks[i], ks[j])
    ensures forall i :: 0 <= i < |ks| ==> lines[i] == ks[i] + [61] + r.headers[ks[i]] + [10]
    ensures key == r.method' + [10] + r.baseURL + [10] + r.query + [10] + Joined(lines)
  {
    hide Front, Names;
    ks := KeyNames(r, key);
    NamesAscend(r, ks);
    lines := LinesJoined(ks, r.headers);
    FrontSpelled(r);
  }

  function Joined(lines: seq<Text>): Text {
    if lines == [] then [] else lines[0] + Joined(lines[1..])
  }

  /** In the order of bytes: at the first difference the byte is less, or the name ends there. */
  ghost predicate ComesBefore(a: Text, b: Text) {
    exists i :: 0 <= i <= |a| && DiffersAt(a, b, i)
  }

  predicate DiffersAt(a: Text, b: Text, i: nat) {
    i < |b| && i <= |a| && a[..i] == b[..i] && (i == |a| || a[i] < b[i])
  }

  lemma {:induction false} LessDiffers(a: Text, b: Text)
    requires Less(a, b)
    ensures ComesBefore(a, b)
    decreases |a|
  {
    if a == [] {
      assert DiffersAt(a, b, 0);
    } else if a[0] < b[0] {
      assert DiffersAt(a, b, 0);
    } else {
      LessDiffers(a[1..], b[1..]);
      var i :| 0 <= i <= |a[1..]| && DiffersAt(a[1..], b[1..], i);
      assert a[..i + 1] == [a[0]] + a[1..][..i] && b[..i + 1] == [b[0]] + b[1..][..i];
      assert DiffersAt(a, b, i + 1);
    }
  }

  lemma NamesAscend(r: Reader, ks: seq<Text>)
    requires Names(r, ks)
    ensures (forall k :: k in ks <==> k in r.headers) && |ks| == |r.headers.Keys|
    ensures forall i, j :: 0 <= i < j < |ks| ==> ks[i] != ks[j] && ComesBefore(ks[i], ks[j])
  {
    VisitsKeys(ks, r.headers.Keys);
    forall i, j | 0 <= i < j < |ks| ensures ks[i] != ks[j] && ComesBefore(ks[i], ks[j]) {
      if ks[i] == ks[j] { NameTwice(ks, i, j); }
      assert AtMost(ks[i], ks[j]);
      LessOrder(ks[i], ks[j]);
      LessDiffers(ks[i], ks[j]);
    }
  }

  lemma NameTwice(ks: seq<Text>, i: nat, j: nat)
    requires i < j < |ks| && ks[i] == ks[j]
    ensures multiset(ks)[ks[i]] >= 2
  {
    assert ks == ks[..i] + [ks[i]] + ks[i + 1..j] + [ks[j]] + ks[j + 1..];
  }

  lemma {:induction false} LinesJoined(ks: seq<Text>, headers: map<Text, Text>) returns (lines: seq<Text>)
    requires forall k | k in ks :: k in headers
    ensures |lines| == |ks| && Joined(lines) == Lines(ks, headers)
    ensures forall i :: 0 <= i < |ks| ==> lines[i] == ks[i] + [61] + headers[ks[i]] + [10]
    decreases |ks|
  {
    lines := [];
    if ks != [] {
      var rest := LinesJoined(ks[1..], headers);
      lines := [Line(ks[0], headers[ks[0]])] + rest;
    }
  }

  lemma FrontSpelled(r: Reader)
    ensures Front(r) == r.method' + [10] + r.baseURL + [10] + r.query + [10]
  {
  }

  /** The request has no headers and no newline in its parts. */
  ghost predicate Bare(r: Reader) {
    r.headers == map[] && NEWLINE !in r.method' && NEWLINE !in r.baseURL && NEWLINE !in r.query
  }

  lemma BareIdentified(r: Reader, s: Reader, key: Text)
    requires IsKey(r, key) && IsKey(s, key) && Bare(r)
    ensures s == r
  {
    hide Front, Lines, Names, Newlines;
    var ks :| Names(r, ks) && (forall k | k in ks :: k in r.headers) && key == Front(r) + Lines(ks, r.headers);
    var ls :| Names(s, ls) && (forall k | k in ls :: k in s.headers) && key == Front(s) + Lines(ls, s.headers);
    NamesUnique(s, ls, ls);
    NoNames(r, ks);
    NoLines(r.headers);
    assert key == Front(r) + [] == Front(r);
    NewlinesConcat(Front(s), Lines(ls, s.headers));
    FrontNewlines(r);
    FrontNewlines(s);
    LinesEnd(ls, s.headers);
    NoNewlines(r.method');
    NoNewlines(r.baseURL);
    NoNewlines(r.query);
    NoNewlines(s.method');
    NoNewlines(s.baseURL);
    NoNewlines(s.query);
    assert ls == [];
    assert s.headers == map[];
    KeyInjective(r, s, key);
  }

  lemma NoNames(r: Reader, ks: seq<Text>)
    requires Names(r, ks) && r.headers == map[]
    ensures ks == []
  {
    VisitsKeys(ks, r.headers.Keys);
  }

  lemma NoLines(headers: map<Text, Text>)
    ensures Lines([], headers) == []
  {
  }

  /** With the header lines read as the end of the body, a request without headers has the same key. */
  lemma HeadersAsBody(r: Reader, key: Text) returns (s: Reader)
    requires IsKey(r, key) && r.headers != map[]
    ensures s.headers == map[] && IsKey(s, key)
  {
    hide Lines, Front, IsKey;
    var ks := KeyNames(r, key);
    NamesUnique(r, ks, ks);
    LinesEnd(ks, r.headers);
    var k :| k in r.headers;
    assert k in ks;
    var lines := Lines(ks, r.headers);
    var before := lines[..|lines| - 1];
    assert lines == before + [NEWLINE];
    s := Reader(r.method', r.baseURL, r.query + [NEWLINE] + before, map[]);
    LongerBody(r, s, before);
    assert Front(s) == Front(r) + lines;
    BareKey(s);
  }

  lemma KeyNames(r: Reader, key: Text) returns (ks: seq<Text>)
    requires IsKey(r, key)
    ensures Names(r, ks) && (forall k | k in ks :: k in r.headers) && key == Front(r) + Lines(ks, r.headers)
  {
    hide Lines, Front, Names;
    ks :| Names(r, ks) && (forall k | k in ks :: k in r.headers) && key == Front(r) + Lines(ks, r.headers);
  }

  lemma LongerBody(r: Reader, s: Reader, more: Text)
    requires s == r.(query := r.query + [NEWLINE] + more, headers := map[])
    ensures Front(s) == Front(r) + (more + [NEWLINE])
  {
  }

  lemma BareKey(s: Reader)
    requires s.headers == map[]
    ensures IsKey(s, Front(s))
  {
    hide Front;
    NoLines(s.headers);
    assert Names(s, []);
    assert Front(s) == Front(s) + Lines([], s.headers);
  }

  /** With the same headers, only the text in front of them counts. */
  lemma SameFront(r: Reader, s: Reader, key: Text)
    requires IsKey(r, key) && s.headers == r.headers && Front(s) == Front(r)
    ensures IsKey(s, key)
  {
    hide Front, Lines;
    var ks :| Names(r, ks) && (forall k | k in ks :: k in r.headers) && key == Front(r) + Lines(ks, r.headers);
    assert Names(s, ks) && key == Front(s) + Lines(ks, s.headers);
  }

  lemma FirstNewline(s: Text) returns (before: Text, after: Text)
    requires NEWLINE in s
    ensures s == before + [NEWLINE] + after
  {
    var i :| 0 <= i < |s| && s[i] == NEWLINE;
    before, after := s[..i], s[i + 1..];
  }

  /** A newline in a part can pass for its end: the rest of the part moves to the next one. */
  lemma NewlineMoved(r: Reader, key: Text) returns (s: Reader)
    requires IsKey(r, key) && (NEWLINE in r.method' || NEWLINE in r.baseURL || NEWLINE in r.query)
    ensures s != r && IsKey(s, key)
  {
    hide IsKey;
    if NEWLINE in r.method' {
      var before, after := FirstNewline(r.method');
      s := Reader(before, after, r.baseURL + [NEWLINE] + r.query, r.headers);
    } else if NEWLINE in r.baseURL {
      var before, after := FirstNewline(r.baseURL);
      s := Reader(r.method', before, after + [NEWLINE] + r.query, r.headers);
      assert |s.baseURL| < |r.baseURL|;
    } else {
      var before, after := FirstNewline(r.query);
      s := Reader(r.method', r.baseURL + [NEWLINE] + before, after, r.headers);
    }
    assert Front(s) == Front(r);
    SameFront(r, s, key);
  }

  /** A key belongs to one request only exactly if that has no headers and no newline in its parts. */
  lemma KeyIdentifies(r: Reader, key: Text)
    requires IsKey(r, key)
    ensures (forall s | IsKey(s, key) :: s == r) <==> Bare(r)
  {
    hide IsKey;
    if Bare(r) {
      forall s | IsKey(s, key) ensures s == r {
        BareIdentified(r, s, key);
      }
    } else if r.headers != map[] {
      var s := HeadersAsBody(r, key);
    } else {
      var s := NewlineMoved(r, key);
    }
  }

  /** A newline in the method, the URL or the body gives some other request the same key. */
  lemma NewlineCollides(r: Reader, key: Text)
    requires IsKey(r, key) && (NEWLINE in r.method' || NEWLINE in r.baseURL || NEWLINE in r.query)
    ensures exists s :: s != r && IsKey(s, key)
  {
    hide IsKey;
    KeyIdentifies(r, key);
  }

  /** So does any header, with an equals sign in its name or without. */
  lemma HeaderCollides(r: Reader, key: Text)
    requires IsKey(r, key) && r.headers != map[]
    ensures exists s :: s != r && IsKey(s, key)
  {
    hide IsKey;
    KeyIdentifies(r, key);
  }

  lemma OneName(r: Reader, k: Text)
    requires r.headers.Keys == {k}
    ensures Names(r, [k])
  {
    assert multiset([k]) == multiset({k});
  }

  /** The key of a request with one header. */
  lemma OneHeaderKey(r: Reader, k: Text, v: Text, key: Text)
    requires r.headers == map[k := v]
    ensures IsKey(r, key) <==> key == Front(r) + Line(k, v)
  {
    hide Front, Line, Names;
    OneName(r, k);
    assert Lines([k], r.headers) == Line(k, v) + Lines([], r.headers);
    assert Lines([k], r.headers) == Line(k, v);
    if IsKey(r, key) {
      var ks :| Names(r, ks) && (forall x | x in ks :: x in r.headers) && key == Front(r) + Lines(ks, r.headers);
      NamesUnique(r, ks, [k]);
    }
  }

  /** An equals sign in a header name can pass for the end of it, so the condition of `KeyInjective` cannot drop that case. */
  lemma EqualsCollides(r: Reader, a: Text, b: Text, v: Text, key: Text)
    requires IsKey(r, key) && r.headers == map[a + [EQUALS] + b := v]
    ensures var s := r.(headers := map[a := b + [EQUALS] + v]); s != r && IsKey(s, key)
  {
    hide IsKey;
    var k, w := a + [EQUALS] + b, b + [EQUALS] + v;
    var s := r.(headers := map[a := w]);
    OneHeaderKey(r, k, v, key);
    OneHeaderKey(s, a, w, key);
    assert Line(k, v) == Line(a, w);
    assert |k| > |a| && k in r.headers && a in s.headers;
    assert a !in r.headers;
  }
}
