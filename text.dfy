/**
 * The JavaScript string and number built-ins the checklist's URL state codec relies on:
 * `String.prototype.split` and `trim`, `Array.prototype.join`, `parseInt(s, 10)` and the
 * decimal rendering of an integer (`Number.prototype.toString`), for integer values.
 */
module Text {
  import opened Wrappers

  predicate IsDigit(c: char) { '0' <= c <= '9' }

  predicate AllDigits(s: string) { forall k :: 0 <= k < |s| ==> IsDigit(s[k]) }

  /** ECMAScript WhiteSpace and LineTerminator code points: what `trim` and `parseInt` skip. */
  predicate IsWhitespace(c: char)
  {
    || c == '\t' || c == '\n' || c == '\U{B}' || c == '\U{C}' || c == '\r' || c == ' '
    || c == '\U{A0}' || c == '\U{1680}' || ('\U{2000}' <= c <= '\U{200A}')
    || c == '\U{2028}' || c == '\U{2029}' || c == '\U{202F}' || c == '\U{205F}'
    || c == '\U{3000}' || c == '\U{FEFF}'
  }

  function DigitValue(c: char): (d: nat)
    requires IsDigit(c)
    ensures d < 10
  {
    c as int - '0' as int
  }

  function DigitChar(d: nat): (c: char)
    requires d < 10
    ensures IsDigit(c) && DigitValue(c) == d
  {
    ('0' as int + d) as char
  }

  // ---------------------------------------------------------------------------
  // Integer to decimal text
  // ---------------------------------------------------------------------------

  /** Decimal digits of `n`, most significant first, without leading zeros. */
  function NatToString(n: nat): (r: string)
    ensures |r| > 0 && AllDigits(r)
    ensures |r| > 1 ==> r[0] != '0'
  {
    if n < 10 then [DigitChar(n)] else NatToString(n / 10) + [DigitChar(n % 10)]
  }

  /** What JavaScript prints for an integer-valued number: a minus sign, then the digits. */
  function IntToString(n: int): (r: string)
    ensures |r| > 0 && !IsWhitespace(r[0]) && !IsWhitespace(r[|r| - 1])
    ensures forall k :: 0 <= k < |r| ==> IsDigit(r[k]) || r[k] == '-'
  {
    if n < 0 then "-" + NatToString(-n) else NatToString(n)
  }

  /** The number a string of decimal digits denotes (read most significant first). */
  function DigitsValue(ds: string): nat
    requires AllDigits(ds)
  {
    if ds == [] then 0 else DigitsValue(ds[..|ds| - 1]) * 10 + DigitValue(ds[|ds| - 1])
  }

  lemma {:induction false} DigitsValueOfNatToString(n: nat)
    ensures DigitsValue(NatToString(n)) == n
  {
    if n >= 10 {
      var s := NatToString(n);
      assert s[..|s| - 1] == NatToString(n / 10);
      DigitsValueOfNatToString(n / 10);
    }
  }

  /** Two different naturals never print the same. */
  lemma NatToStringInjective(a: nat, b: nat)
    requires NatToString(a) == NatToString(b)
    ensures a == b
  {
    DigitsValueOfNatToString(a);
    DigitsValueOfNatToString(b);
  }

  /** Position of the first `c` in `s`, or `|s|` when there is none. */
  function IndexOf(s: string, c: char): (r: nat)
    ensures r <= |s| && c !in s[..r]
    ensures r < |s| ==> s[r] == c
  {
    if s == [] then 0 else if s[0] == c then 0 else 1 + IndexOf(s[1..], c)
  }

  /** The first `c` of `w + [c] + t` is the one after `w` when `w` holds none. */
  lemma {:induction false} IndexOfAfterPiece(w: string, c: char, t: string)
    requires c !in w
    ensures IndexOf(w + [c] + t, c) == |w|
  {
    if w != [] {
      assert (w + [c] + t)[1..] == w[1..] + [c] + t;
      IndexOfAfterPiece(w[1..], c, t);
    }
  }

  /** `a-b` is read back unambiguously when neither `a` nor `b` holds a `-`. */
  lemma DashSeparated(a: string, b: string, a': string, b': string)
    requires '-' !in a && '-' !in a'
    requires a + "-" + b == a' + "-" + b'
    ensures a == a' && b == b'
  {
    var s := a + "-" + b;
    IndexOfAfterPiece(a, '-', b);
    IndexOfAfterPiece(a', '-', b');
    assert a == s[..|a|];
    assert a' == s[..|a'|];
    assert b == s[|a| + 1..];
    assert b' == s[|a'| + 1..];
  }

  lemma NoDashInDecimal(n: nat)
    ensures '-' !in NatToString(n)
  {
    var r := NatToString(n);
    assert forall k :: 0 <= k < |r| ==> r[k] != '-';
  }

  // ---------------------------------------------------------------------------
  // trim
  // ---------------------------------------------------------------------------

  /** `s` without its leading white space: a suffix of `s`, preceded only by white space. */
  function TrimStart(s: string): (r: string)
    ensures |r| <= |s| && r == s[|s| - |r|..]
    ensures forall k :: 0 <= k < |s| - |r| ==> IsWhitespace(s[k])
    ensures r == [] || !IsWhitespace(r[0])
  {
    if s != [] && IsWhitespace(s[0]) then TrimStart(s[1..]) else s
  }

  /** `s` without its trailing white space: a prefix of `s`, followed only by white space. */
  function TrimEnd(s: string): (r: string)
    ensures |r| <= |s| && r == s[..|r|]
    ensures forall k :: |r| <= k < |s| ==> IsWhitespace(s[k])
    ensures r == [] || !IsWhitespace(r[|r| - 1])
  {
    if s != [] && IsWhitespace(s[|s| - 1]) then TrimEnd(s[..|s| - 1]) else s
  }

  /** `String.prototype.trim`: white space removed at both ends. */
  function Trim(s: string): string
  {
    TrimEnd(TrimStart(s))
  }

  /** `trim` never lengthens its input and leaves no white space at either end. */
  lemma TrimTrimmed(s: string)
    ensures |Trim(s)| <= |s|
    ensures Trim(s) == [] || (!IsWhitespace(Trim(s)[0]) && !IsWhitespace(Trim(s)[|Trim(s)| - 1]))
  {
  }

  /** Text that neither starts nor ends with white space is left as it is by `trim`. */
  lemma TrimUnpadded(s: string)
    requires s == [] || (!IsWhitespace(s[0]) && !IsWhitespace(s[|s| - 1]))
    ensures Trim(s) == s
  {
  }

  /** Trimming twice is trimming once. */
  lemma TrimIdempotent(s: string)
    ensures Trim(Trim(s)) == Trim(s)
  {
    TrimTrimmed(s);
    TrimUnpadded(Trim(s));
  }

  // ---------------------------------------------------------------------------
  // parseInt(s, 10)
  // ---------------------------------------------------------------------------

  /** The longest prefix of `s` made of decimal digits. */
  function DigitPrefix(s: string): (r: string)
    ensures |r| <= |s| && r == s[..|r|] && AllDigits(r)
    ensures |r| == |s| || !IsDigit(s[|r|])
  {
    if s != [] && IsDigit(s[0]) then [s[0]] + DigitPrefix(s[1..]) else []
  }

  /**
   * `parseInt(s, 10)`: skip leading white space, take an optional `+` or `-`, then the
   * longest run of decimal digits; no digit there gives NaN (`None`). With radix 10 a
   * `0x` prefix is not special, so "0x1" reads as 0.
   */
  function ParseInt(s: string): Option<int>
  {
    ParseSigned(TrimStart(s))
  }

  /** The part of `parseInt` after the leading white space: an optional sign, then digits. */
  function ParseSigned(t: string): Option<int>
  {
    var negative := t != [] && t[0] == '-';
    var digits := DigitPrefix(Unsigned(t));
    if digits == [] then None
    else if negative then Some(-(DigitsValue(digits) as int))
    else Some(DigitsValue(digits))
  }

  /** `t` without its leading sign character, if it has one. */
  function Unsigned(t: string): string
  {
    if t != [] && (t[0] == '-' || t[0] == '+') then t[1..] else t
  }

  /** Text that does not start with white space is left as it is by the first step of parseInt. */
  lemma TrimStartUnpadded(s: string)
    requires s == [] || !IsWhitespace(s[0])
    ensures TrimStart(s) == s
  {
  }

  /** parseInt reads back what IntToString printed. */
  lemma {:induction false} ParseIntOfIntToString(n: int)
    ensures ParseInt(IntToString(n)) == Some(n)
  {
    var m: nat := if n < 0 then -n else n;
    var sign := if n < 0 then "-" else "";
    assert IntToString(n) == sign + NatToString(m) + [];
    ParseIntStopsAtNonDigit(sign, NatToString(m), []);
    DigitsValueOfNatToString(m);
  }

  /** parseInt stops at the first non-digit: "12px", "3.5" and "7,8" read as 12, 3 and 7. */
  lemma {:induction false} ParseIntStopsAtNonDigit(sign: string, digits: string, tail: string)
    requires sign == "" || sign == "+" || sign == "-"
    requires digits != [] && AllDigits(digits)
    requires tail == [] || !IsDigit(tail[0])
    ensures ParseInt(sign + digits + tail) ==
            Some(if sign == "-" then -(DigitsValue(digits) as int) else DigitsValue(digits))
  {
    var rest := digits + tail;
    var s := sign + rest;
    assert s == sign + digits + tail;
    assert rest[0] == digits[0] && IsDigit(digits[0]);
    assert s[0] == if sign == "" then rest[0] else sign[0];
    assert (s[0] == '-') == (sign == "-");
    TrimStartUnpadded(s);
    UnsignedOfSigned(sign, rest);
    DigitPrefixOfDigitsThenStop(digits, tail);
    assert ParseInt(s) == ParseSigned(s);
  }

  lemma UnsignedOfSigned(sign: string, rest: string)
    requires sign == "" || sign == "+" || sign == "-"
    requires rest == [] || (rest[0] != '-' && rest[0] != '+')
    ensures Unsigned(sign + rest) == rest
  {
    if sign != "" {
      assert (sign + rest)[1..] == rest;
    }
  }

  lemma {:induction false} DigitPrefixOfDigitsThenStop(digits: string, tail: string)
    requires AllDigits(digits)
    requires tail == [] || !IsDigit(tail[0])
    ensures DigitPrefix(digits + tail) == digits
  {
    if digits != [] {
      assert (digits + tail)[1..] == digits[1..] + tail;
      DigitPrefixOfDigitsThenStop(digits[1..], tail);
    }
  }

  /** A token with no digit after its optional sign is NaN: "x", "x y", "", "-" and "+-1". */
  lemma ParseIntNaN(s: string)
    requires s == [] || !IsWhitespace(s[0])
    requires s == [] || !IsDigit(s[0])
    requires |s| > 1 && (s[0] == '-' || s[0] == '+') ==> !IsDigit(s[1])
    ensures ParseInt(s) == None
  {
    TrimStartUnpadded(s);
  }

  // ---------------------------------------------------------------------------
  // split and join
  // ---------------------------------------------------------------------------

  /** `Array.prototype.join(d)`: the parts with one `d` between neighbours. */
  function Join(parts: seq<string>, d: char): string
  {
    if |parts| == 0 then []
    else if |parts| == 1 then parts[0]
    else parts[0] + [d] + Join(parts[1..], d)
  }

  /**
   * `String.prototype.split(d)`: the maximal `d`-free pieces of `s`, in order. There is
   * always at least one piece (`"".split(",")` is `[""]`), and joining them gives `s` back.
   */
  function Split(s: string, d: char): (r: seq<string>)
    ensures |r| >= 1
    ensures forall k :: 0 <= k < |r| ==> d !in r[k]
    ensures Join(r, d) == s
  {
    if s == [] then [[]]
    else
      var rest := Split(s[1..], d);
      if s[0] == d then [[]] + rest
      else [[s[0]] + rest[0]] + rest[1..]
  }

  lemma {:induction false} SplitPieceThenRest(w: string, d: char, t: string)
    requires d !in w
    ensures Split(w + [d] + t, d) == [w] + Split(t, d)
  {
    if w != [] {
      assert (w + [d] + t)[1..] == w[1..] + [d] + t;
      SplitPieceThenRest(w[1..], d, t);
      assert [w[0]] + w[1..] == w;
    } else {
      assert w + [d] + t == [d] + t;
      assert ([d] + t)[1..] == t;
    }
  }

  lemma {:induction false} SplitPiece(w: string, d: char)
    requires d !in w
    ensures Split(w, d) == [w]
  {
    if w != [] {
      SplitPiece(w[1..], d);
      assert [w[0]] + w[1..] == w;
    }
  }

  /** Splitting a join gives the parts back, when there is at least one and none holds `d`. */
  lemma {:induction false} SplitJoin(parts: seq<string>, d: char)
    requires |parts| >= 1
    requires forall k :: 0 <= k < |parts| ==> d !in parts[k]
    ensures Split(Join(parts, d), d) == parts
  {
    if |parts| == 1 {
      SplitPiece(parts[0], d);
    } else {
      SplitJoin(parts[1..], d);
      SplitPieceThenRest(parts[0], d, Join(parts[1..], d));
      assert [parts[0]] + parts[1..] == parts;
    }
  }
}
