/**
 * The URL state codec of the checklist page: the set of verified top-level item indices
 * travels in the query parameter `v` as the indices in ascending order, separated by
 * commas (`updateUrlState`); `getVerifiedFromUrl` reads it back, silently dropping every
 * token that `parseInt` cannot read.
 */
module StateCodec {
  import opened Wrappers
  import opened Text

  const Delimiter: char := ','

  /** m is the least element of s. */
  predicate IsLeast(m: int, s: set<int>) {
    m in s && forall x :: x in s ==> m <= x
  }

  lemma {:induction false} MinExists(s: set<int>)
    requires s != {}
    ensures exists m :: IsLeast(m, s)
    decreases |s|
  {
    if forall x :: x !in s {
      assert false;  // s is not empty
    }
    var y :| y in s;
    if s == {y} {
      assert IsLeast(y, s);
    } else {
      MinExists(s - {y});
      var m :| IsLeast(m, s - {y});
      LeastWithOneMore(s, y, m);
    }
  }

  lemma LeastWithOneMore(s: set<int>, y: int, m: int)
    requires y in s && IsLeast(m, s - {y})
    ensures IsLeast(if y < m then y else m, s)
  {
    forall x | x in s
      ensures (if y < m then y else m) <= x
    {
      if x != y {
        assert x in s - {y};
      }
    }
  }

  /** The least element of a non-empty set. */
  function Min(s: set<int>): (m: int)
    requires s != {}
    ensures m in s && forall x :: x in s ==> m <= x
  {
    MinExists(s);
    var m :| IsLeast(m, s);
    m
  }

  /** `Array.from(set).sort((a, b) => a - b)`: every element once, in ascending numeric order. */
  function SortedElements(s: set<int>): (r: seq<int>)
    ensures |r| == |s|
    ensures forall x :: x in r <==> x in s
    ensures forall i, j :: 0 <= i < j < |r| ==> r[i] < r[j]
    decreases |s|
  {
    if s == {} then []
    else
      var m := Min(s);
      [m] + SortedElements(s - {m})
  }

  /** Each number rendered as JavaScript's `join` renders it. */
  function Decimals(xs: seq<int>): (r: seq<string>)
    ensures |r| == |xs|
    ensures forall k :: 0 <= k < |r| ==> r[k] == IntToString(xs[k]) && Delimiter !in r[k]
  {
    seq(|xs|, k requires 0 <= k < |xs| => IntToString(xs[k]))
  }

  /**
   * The string `updateUrlState` builds. It is empty exactly for the empty set; otherwise
   * its comma-separated tokens are the decimal forms of the elements, ascending.
   */
  function Encode(verified: set<int>): (r: string)
    ensures r == "" <==> verified == {}
    ensures verified != {} ==> Split(r, Delimiter) == Decimals(SortedElements(verified))
  {
    var parts := Decimals(SortedElements(verified));
    assert verified != {} ==> Split(Join(parts, Delimiter), Delimiter) == parts by {
      if verified != {} {
        SplitJoin(parts, Delimiter);
      }
    }
    Join(parts, Delimiter)
  }

  /**
   * The value `v` takes after `updateUrlState`: the encoded string when it is non-empty,
   * and no parameter at all (the key is deleted) when nothing is verified.
   */
  function UrlParam(verified: set<int>): (p: Option<string>)
    ensures p == None <==> verified == {}
    ensures p.Some? ==> p.value != "" && Split(p.value, Delimiter) == Decimals(SortedElements(verified))
  {
    var encoded := Encode(verified);
    if encoded != "" then Some(encoded) else None
  }

  /** `.map(index => parseInt(index.trim(), 10))`: what parseInt makes of each trimmed token. */
  function ParseTokens(tokens: seq<string>): (r: seq<Option<int>>)
    ensures |r| == |tokens|
    ensures forall k :: 0 <= k < |r| ==> r[k] == ParseInt(Trim(tokens[k]))
  {
    seq(|tokens|, k requires 0 <= k < |tokens| => ParseInt(Trim(tokens[k])))
  }

  /** `new Set(values.filter(n => !isNaN(n)))`: the numbers among the parse results. */
  function Numbers(values: seq<Option<int>>): (r: set<int>)
    ensures forall n :: n in r <==> Some(n) in values
  {
    if values == [] then {}
    else
      var rest := Numbers(values[1..]);
      assert forall v :: v in values <==> v == values[0] || v in values[1..];
      match values[0]
      case None => rest
      case Some(n) => {n} + rest
  }

  /**
   * `getVerifiedFromUrl` on a present parameter. Total: the empty string gives the empty
   * set, and a token parseInt cannot read is left out rather than raising an error. A
   * negative token such as "-1" is a number to parseInt and is kept.
   */
  function Decode(raw: string): (r: set<int>)
    ensures raw == "" ==> r == {}
    ensures raw != "" ==> forall n :: n in r <==> Some(n) in ParseTokens(Split(raw, Delimiter))
  {
    if raw == "" then {} else Numbers(ParseTokens(Split(raw, Delimiter)))
  }

  /** `getVerifiedFromUrl`: an absent parameter and an empty one both give the empty set. */
  function DecodeParam(p: Option<string>): (r: set<int>)
    ensures p == None ==> r == {}
    ensures p.Some? ==> r == Decode(p.value)
  {
    match p
    case None => {}
    case Some(raw) => Decode(raw)
  }

  /** Every token Encode writes is read back by parseInt as the number it came from. */
  lemma ParseDecimals(xs: seq<int>)
    ensures forall n :: Some(n) in ParseTokens(Decimals(xs)) <==> n in xs
  {
    var values := ParseTokens(Decimals(xs));
    forall k | 0 <= k < |xs|
      ensures values[k] == Some(xs[k])
    {
      TrimParsesInt(xs[k]);
    }
    SomeOfEach(values, xs);
  }

  lemma SomeOfEach(values: seq<Option<int>>, xs: seq<int>)
    requires |values| == |xs|
    requires forall k :: 0 <= k < |xs| ==> values[k] == Some(xs[k])
    ensures forall n :: Some(n) in values <==> n in xs
  {
    forall n
      ensures Some(n) in values <==> n in xs
    {
      if Some(n) in values {
        var k :| 0 <= k < |values| && values[k] == Some(n);
        assert xs[k] == n;
      }
      if n in xs {
        var k :| 0 <= k < |xs| && xs[k] == n;
        assert values[k] == Some(n);
      }
    }
  }

  /** The round trip through the string: Decode(Encode(S)) == S for every finite set. */
  lemma RoundTrip(verified: set<int>)
    ensures Decode(Encode(verified)) == verified
  {
    if verified != {} {
      var xs := SortedElements(verified);
      ParseDecimals(xs);
      DecodeTokens(Encode(verified), Decimals(xs), verified);
    }
  }

  /** Decode reads exactly the numbers among the parsed tokens of a non-empty string. */
  lemma DecodeTokens(raw: string, tokens: seq<string>, s: set<int>)
    requires raw != "" && Split(raw, Delimiter) == tokens
    requires forall n :: Some(n) in ParseTokens(tokens) <==> n in s
    ensures Decode(raw) == s
  {
    assert forall n :: n in Decode(raw) <==> n in s;
  }

  /** The round trip through the URL parameter, including "no parameter" for the empty set. */
  lemma ParamRoundTrip(verified: set<int>)
    ensures DecodeParam(UrlParam(verified)) == verified
  {
    RoundTrip(verified);
  }

  /**
   * Reading a hand-edited parameter `<a>,x,<b>,<c>,<d>`, for instance "2,x,5,-1,3": the
   * junk token is dropped and every number is kept, negative ones included.
   */
  lemma DecodeMixedTokens(a: int, b: int, c: int, d: int)
    ensures Decode(Join([IntToString(a), "x", IntToString(b), IntToString(c), IntToString(d)], Delimiter))
            == {a, b, c, d}
  {
    var tokens := [IntToString(a), "x", IntToString(b), IntToString(c), IntToString(d)];
    var raw := Join(tokens, Delimiter);
    assert forall k :: 0 <= k < |tokens| ==> Delimiter !in tokens[k] by {
      NoDelimiterInDecimal(a);
      NoDelimiterInDecimal(b);
      NoDelimiterInDecimal(c);
      NoDelimiterInDecimal(d);
    }
    SplitJoin(tokens, Delimiter);
    JoinFive(tokens, Delimiter);
    JunkIsNaN();
    ParseFourNumbersAndJunk(tokens, a, b, c, d);
    DecodeFiveTokens(raw, tokens, a, b, c, d);
  }

  lemma NoDelimiterInDecimal(n: int)
    ensures Delimiter !in IntToString(n)
  {
    var r := IntToString(n);
    assert forall k :: 0 <= k < |r| ==> r[k] != Delimiter;
  }

  lemma DecodeFiveTokens(raw: string, tokens: seq<string>, a: int, b: int, c: int, d: int)
    requires raw != "" && Split(raw, Delimiter) == tokens
    requires var v := ParseTokens(tokens);
      |v| == 5 && v[0] == Some(a) && v[1] == None && v[2] == Some(b) && v[3] == Some(c) && v[4] == Some(d)
    ensures Decode(raw) == {a, b, c, d}
  {
    FourNumbers(ParseTokens(tokens), a, b, c, d);
  }

  /** The numbers among the parse results of four numeric tokens and one junk token. */
  lemma FourNumbers(values: seq<Option<int>>, a: int, b: int, c: int, d: int)
    requires |values| == 5 && values[0] == Some(a) && values[1] == None
    requires values[2] == Some(b) && values[3] == Some(c) && values[4] == Some(d)
    ensures Numbers(values) == {a, b, c, d}
  {
    var r := Numbers(values);
    forall n
      ensures n in r <==> n in {a, b, c, d}
    {
      if Some(n) in values {
        var k :| 0 <= k < 5 && values[k] == Some(n);
      }
      if n in {a, b, c, d} {
        var k := if n == a then 0 else if n == b then 2 else if n == c then 3 else 4;
        assert values[k] == Some(n);
      }
    }
  }

  lemma ParseFourNumbersAndJunk(tokens: seq<string>, a: int, b: int, c: int, d: int)
    requires |tokens| == 5 && tokens[0] == IntToString(a)
    requires tokens[2] == IntToString(b) && tokens[3] == IntToString(c) && tokens[4] == IntToString(d)
    ensures var r := ParseTokens(tokens);
      |r| == 5 && r[0] == Some(a) && r[1] == ParseInt(Trim(tokens[1]))
      && r[2] == Some(b) && r[3] == Some(c) && r[4] == Some(d)
  {
    var r := ParseTokens(tokens);
    assert r[0] == Some(a) by { TokenValue(tokens[0], a); }
    assert r[2] == Some(b) by { TokenValue(tokens[2], b); }
    assert r[3] == Some(c) by { TokenValue(tokens[3], c); }
    assert r[4] == Some(d) by { TokenValue(tokens[4], d); }
  }

  lemma TokenValue(t: string, n: int)
    requires t == IntToString(n)
    ensures ParseInt(Trim(t)) == Some(n)
  {
    TrimParsesInt(n);
  }

  lemma JunkIsNaN()
    ensures ParseInt(Trim("x")) == None
  {
    TrimUnpadded("x");
    ParseIntNaN("x");
  }

  lemma JoinFive(parts: seq<string>, d: char)
    requires |parts| == 5
    ensures Join(parts, d) == parts[0] + [d] + parts[1] + [d] + parts[2] + [d] + parts[3] + [d] + parts[4]
  {
    assert Join(parts[3..], d) == parts[3] + [d] + parts[4] by {
      assert parts[3..][1..] == parts[4..];
    }
    assert Join(parts[2..], d) == parts[2] + [d] + Join(parts[3..], d) by {
      assert parts[2..][1..] == parts[3..];
    }
    assert Join(parts[1..], d) == parts[1] + [d] + Join(parts[2..], d) by {
      assert parts[1..][1..] == parts[2..];
    }
  }

  lemma TrimParsesInt(n: int)
    ensures ParseInt(Trim(IntToString(n))) == Some(n)
  {
    TrimUnpadded(IntToString(n));
    ParseIntOfIntToString(n);
  }
}
