/**
 * String helpers with Rust's semantics: `str::trim` (Unicode White_Space),
 * lowercasing (A to Z and the KELVIN SIGN), `split`/`join`, decimal
 * formatting with zero padding, `u32`/`i32` parsing of short fields, and
 * byte-wise string order.
 */
module Text {

  /** Rust's `char::is_whitespace`: the Unicode White_Space property. */
  predicate IsWhitespace(c: char) {
    var n := c as int;
    (0x09 <= n <= 0x0D) || n == 0x20 || n == 0x85 || n == 0xA0 || n == 0x1680
    || (0x2000 <= n <= 0x200A) || n == 0x2028 || n == 0x2029 || n == 0x202F
    || n == 0x205F || n == 0x3000
  }

  predicate AllWhitespace(s: string) {
    forall i :: 0 <= i < |s| ==> IsWhitespace(s[i])
  }

  function TrimStart(s: string): (t: string)
    ensures |t| <= |s| && t == s[|s| - |t|..]
    ensures AllWhitespace(s[..|s| - |t|])
    ensures t == [] || !IsWhitespace(t[0])
  {
    if s == [] || !IsWhitespace(s[0]) then s else TrimStart(s[1..])
  }

  function TrimEnd(s: string): (t: string)
    ensures |t| <= |s| && t == s[..|t|]
    ensures AllWhitespace(s[|t|..])
    ensures t == [] || !IsWhitespace(t[|t| - 1])
  {
    if s == [] || !IsWhitespace(s[|s| - 1]) then s else TrimEnd(s[..|s| - 1])
  }

  /** `str::trim`: drops leading and trailing whitespace, keeps the middle intact. */
  function Trim(s: string): (t: string)
    ensures |t| <= |s|
    ensures t == [] || (!IsWhitespace(t[0]) && !IsWhitespace(t[|t| - 1]))
    ensures t == [] <==> AllWhitespace(s)
  {
    var a := TrimStart(s);
    var b := TrimEnd(a);
    TrimParts(s, a, b);
    b
  }

  /** What trimming keeps is a contiguous part of the input with only whitespace around it. */
  lemma TrimInfix(s: string)
    ensures exists i, j :: 0 <= i <= j <= |s| && Trim(s) == s[i..j] && AllWhitespace(s[..i]) && AllWhitespace(s[j..])
  {
    var a := TrimStart(s);
    var b := TrimEnd(a);
    var i := |s| - |a|;
    TrimPartsAt(s, a, b, i);
    assert 0 <= i <= i + |b| <= |s| && b == s[i..i + |b|] && AllWhitespace(s[..i]) && AllWhitespace(s[i + |b|..]);
    assert Trim(s) == b;
  }

  lemma TrimPartsAt(s: string, a: string, b: string, i: int)
    requires |a| <= |s| && a == s[|s| - |a|..] && AllWhitespace(s[..|s| - |a|])
    requires a == [] || !IsWhitespace(a[0])
    requires |b| <= |a| && b == a[..|b|] && AllWhitespace(a[|b|..])
    requires i == |s| - |a|
    ensures 0 <= i <= i + |b| <= |s| && b == s[i..i + |b|]
    ensures AllWhitespace(s[..i]) && AllWhitespace(s[i + |b|..])
  {
    TrimParts(s, a, b);
  }

  lemma TrimParts(s: string, a: string, b: string)
    requires |a| <= |s| && a == s[|s| - |a|..] && AllWhitespace(s[..|s| - |a|])
    requires a == [] || !IsWhitespace(a[0])
    requires |b| <= |a| && b == a[..|b|] && AllWhitespace(a[|b|..])
    ensures var i := |s| - |a|; b == s[i..i + |b|] && AllWhitespace(s[i + |b|..])
    ensures b == [] <==> AllWhitespace(s)
  {
    var i := |s| - |a|;
    assert s[i + |b|..] == a[|b|..];
    if b == [] {
      assert a[|b|..] == a;
      assert s[..i] == s;
    } else if a != [] {
      assert a[0] == s[i];
    }
  }

  /** Trimming twice is trimming once. */
  lemma TrimIdempotent(s: string)
    ensures Trim(Trim(s)) == Trim(s)
  {
    var t := Trim(s);
    if t != [] {
      assert TrimStart(t) == t;
      assert TrimEnd(t) == t;
    }
  }

  /** The KELVIN SIGN, U+212A, whose lowercase is the ASCII letter 'k'. */
  const KelvinSign: char := '\U{212A}'

  /**
   * `to_lowercase` on the characters whose lowercase is ASCII: the letters
   * A to Z and the KELVIN SIGN. Every other character is kept.
   */
  function LowerChar(c: char): (r: char)
    ensures 'A' <= c <= 'Z' ==> r as int == c as int + 32
    ensures c == KelvinSign ==> r == 'k'
    ensures !('A' <= c <= 'Z') && c != KelvinSign ==> r == c
  {
    if 'A' <= c <= 'Z' then (c as int + 32) as char
    else if c == KelvinSign then 'k'
    else c
  }

  /** Lowercasing, character by character. */
  function Lower(s: string): (r: string)
    ensures |r| == |s|
    ensures forall i :: 0 <= i < |s| ==> r[i] == LowerChar(s[i])
  {
    if s == [] then [] else [LowerChar(s[0])] + Lower(s[1..])
  }

  /** A string without upper-case ASCII letters or a KELVIN SIGN is its own lowercase. */
  lemma LowerNoop(s: string)
    requires forall c :: c in s ==> !('A' <= c <= 'Z') && c != KelvinSign
    ensures Lower(s) == s
  {
    assert forall i :: 0 <= i < |s| ==> s[i] in s;
  }

  lemma LowerIdempotent(s: string)
    ensures Lower(Lower(s)) == Lower(s)
  {
  }

  // ---------------------------------------------------------------------------
  // split / join
  // ---------------------------------------------------------------------------

  /** A sequence one longer than `b` that agrees with it on `b`'s indices is `b` plus its last element. */
  lemma SnocAt<T>(a: seq<T>, b: seq<T>, x: T)
    requires |a| == |b| + 1 && a[|b|] == x
    requires forall i :: 0 <= i < |b| ==> a[i] == b[i]
    ensures a == b + [x]
  {
  }

  /** A non-empty sequence is its front followed by its last element. */
  lemma FrontLast<T>(s: seq<T>)
    requires s != []
    ensures s[..|s| - 1] + [s[|s| - 1]] == s
  {
  }

  /** `s.split(sep)`: the pieces between separators; always at least one piece. */
  function Split(s: string, sep: char): (parts: seq<string>)
    ensures |parts| >= 1
    ensures forall p :: p in parts ==> sep !in p
    decreases |s|
  {
    if sep !in s then [s]
    else
      var i := IndexOf(s, sep);
      [s[..i]] + Split(s[i + 1..], sep)
  }

  function IndexOf(s: string, c: char): (i: nat)
    requires c in s
    ensures i < |s| && s[i] == c && c !in s[..i]
  {
    if s[0] == c then 0 else 1 + IndexOf(s[1..], c)
  }

  /** Appending nothing, and regrouping appends, leave a string as it is. */
  lemma AppendNil(s: string)
    ensures s + [] == s
  {
  }

  lemma AppendAssoc(a: string, b: string, c: string)
    ensures a + b + c == a + (b + c)
  {
  }

  /** `parts.join(sep)`. */
  function Join(parts: seq<string>, sep: string): string {
    if parts == [] then []
    else if |parts| == 1 then parts[0]
    else parts[0] + sep + Join(parts[1..], sep)
  }

  /** Joining the pieces of a split with the same separator restores the string. */
  lemma {:induction false} JoinSplit(s: string, sep: char)
    ensures Join(Split(s, sep), [sep]) == s
    decreases |s|
  {
    if sep in s {
      var i := IndexOf(s, sep);
      var rest := Split(s[i + 1..], sep);
      assert Split(s, sep) == [s[..i]] + rest;
      JoinCons(s[..i], rest, [sep]);
      JoinSplit(s[i + 1..], sep);
      SplitAround(s, i);
    }
  }

  lemma JoinCons(a: string, rest: seq<string>, sep: string)
    requires |rest| >= 1
    ensures Join([a] + rest, sep) == a + sep + Join(rest, sep)
  {
    assert ([a] + rest)[1..] == rest;
  }

  lemma SplitAround(s: string, i: int)
    requires 0 <= i < |s|
    ensures s[..i] + [s[i]] + s[i + 1..] == s
  {
  }

  lemma {:induction false} IndexOfAfter(a: string, c: char, b: string)
    requires c !in a
    ensures c in a + [c] + b && IndexOf(a + [c] + b, c) == |a|
    decreases |a|
  {
    assert (a + [c] + b)[|a|] == c;
    if a != [] {
      assert (a + [c] + b)[1..] == a[1..] + [c] + b;
      IndexOfAfter(a[1..], c, b);
    }
  }

  /** Splitting a join of separator-free pieces gives the pieces back. */
  lemma {:induction false} SplitJoin(parts: seq<string>, sep: char)
    requires |parts| >= 1
    requires forall i :: 0 <= i < |parts| ==> sep !in parts[i]
    ensures Split(Join(parts, [sep]), sep) == parts
    decreases |parts|
  {
    if |parts| > 1 {
      var p := parts[0];
      var rest := Join(parts[1..], [sep]);
      var s := p + [sep] + rest;
      assert Join(parts, [sep]) == s;
      IndexOfAfter(p, sep, rest);
      assert s[..|p|] == p;
      assert s[|p| + 1..] == rest;
      SplitJoin(parts[1..], sep);
      calc {
        Split(s, sep);
        [s[..|p|]] + Split(s[|p| + 1..], sep);
        [p] + parts[1..];
        parts;
      }
    }
  }

  // ---------------------------------------------------------------------------
  // Decimal numbers
  // ---------------------------------------------------------------------------

  predicate IsDigit(c: char) { '0' <= c <= '9' }

  predicate AllDigits(s: string) {
    forall i :: 0 <= i < |s| ==> IsDigit(s[i])
  }

  function DigitChar(v: nat): (c: char)
    requires v < 10
    ensures IsDigit(c) && c as int - '0' as int == v
  {
    ('0' as int + v) as char
  }

  /** Value of a string of decimal digits. */
  function DigitsValue(s: string): (v: nat)
    requires AllDigits(s)
  {
    if s == [] then 0 else DigitsValue(s[..|s| - 1]) * 10 + (s[|s| - 1] as int - '0' as int)
  }

  /** Shortest decimal representation of `n` (Rust's `{}` for an unsigned number). */
  function Decimal(n: nat): (s: string)
    ensures |s| >= 1 && AllDigits(s)
    ensures DigitsValue(s) == n
    ensures n < 10 <==> |s| == 1
    ensures |s| > 1 ==> s[0] != '0'
  {
    if n < 10 then [DigitChar(n)] else Decimal(n / 10) + [DigitChar(n % 10)]
  }

  /** Rust's zero-padded format on a non-negative number: left-padded with '0' to at least `width` characters. */
  function ZeroPad(n: nat, width: nat): (s: string)
    ensures AllDigits(s) && DigitsValue(s) == n
    ensures |s| == if |Decimal(n)| >= width then |Decimal(n)| else width
  {
    var d := Decimal(n);
    if |d| >= width then d else LeadingZeros(width - |d|, d); Zeros(width - |d|) + d
  }

  function Zeros(k: nat): (s: string)
    ensures |s| == k && AllDigits(s) && DigitsValue(s) == 0
  {
    if k == 0 then [] else Zeros(k - 1) + ['0']
  }

  /** Leading zeros do not change the value of a digit string. */
  lemma {:induction false} LeadingZeros(k: nat, d: string)
    requires AllDigits(d)
    ensures AllDigits(Zeros(k) + d)
    ensures DigitsValue(Zeros(k) + d) == DigitsValue(d)
    decreases |d|
  {
    var z := Zeros(k);
    if d != [] {
      var d' := d[..|d| - 1];
      assert (z + d)[..|z + d| - 1] == z + d';
      LeadingZeros(k, d');
    } else {
      assert z + d == z;
    }
  }

  /** Numbers below 10^k have at most k decimal digits. */
  lemma DecimalLength(n: nat)
    ensures n < 10 ==> |Decimal(n)| == 1
    ensures n < 100 ==> |Decimal(n)| <= 2
    ensures n < 1000 ==> |Decimal(n)| <= 3
    ensures n < 10000 ==> |Decimal(n)| <= 4
  {
    if n >= 10 { DecimalLength(n / 10); }
  }

  // ---------------------------------------------------------------------------
  // Rust `str::parse` for u32 and i32 on short fields (no overflow possible)
  // ---------------------------------------------------------------------------

  datatype Parsed = NoNumber | Number(value: int)

  /** `u32::from_str`: an optional '+', then one or more ASCII digits. */
  function ParseUnsigned(s: string): (r: Parsed)
    ensures r.Number? ==> r.value >= 0
    ensures AllDigits(s) && s != [] ==> r == Number(DigitsValue(s))
    ensures s == [] ==> r.NoNumber?
  {
    var body := if s != [] && s[0] == '+' then s[1..] else s;
    if body != [] && AllDigits(body) then Number(DigitsValue(body)) else NoNumber
  }

  /** `i32::from_str`: an optional '+' or '-', then one or more ASCII digits. */
  function ParseSigned(s: string): (r: Parsed)
    ensures AllDigits(s) && s != [] ==> r == Number(DigitsValue(s))
    ensures s == [] ==> r.NoNumber?
  {
    if s != [] && s[0] == '-' then
      var body := s[1..];
      if body != [] && AllDigits(body) then Number(-(DigitsValue(body) as int)) else NoNumber
    else ParseUnsigned(s)
  }

  // ---------------------------------------------------------------------------
  // Rust's `Ord` on strings: lexicographic by code point (equal to UTF-8 byte order)
  // ---------------------------------------------------------------------------

  predicate LexLess(a: string, b: string) {
    if a == [] then b != []
    else if b == [] then false
    else if a[0] != b[0] then a[0] < b[0]
    else LexLess(a[1..], b[1..])
  }

  predicate LexLeq(a: string, b: string) {
    a == b || LexLess(a, b)
  }

  lemma {:induction false} LexLessIrreflexive(a: string)
    ensures !LexLess(a, a)
  {
    if a != [] { LexLessIrreflexive(a[1..]); }
  }

  lemma {:induction false} LexLessTransitive(a: string, b: string, c: string)
    requires LexLess(a, b) && LexLess(b, c)
    ensures LexLess(a, c)
  {
    if a != [] && b != [] && c != [] && a[0] == b[0] && b[0] == c[0] {
      LexLessTransitive(a[1..], b[1..], c[1..]);
    }
  }

  lemma {:induction false} LexLessTotal(a: string, b: string)
    ensures a == b || LexLess(a, b) || LexLess(b, a)
  {
    if a != [] && b != [] && a[0] == b[0] {
      LexLessTotal(a[1..], b[1..]);
      if a[1..] == b[1..] {
        assert a == [a[0]] + a[1..] && b == [b[0]] + b[1..];
      }
    }
  }

  lemma {:induction false} LexLessAsymmetric(a: string, b: string)
    requires LexLess(a, b)
    ensures !LexLess(b, a)
  {
    if a != [] && b != [] && a[0] == b[0] {
      LexLessAsymmetric(a[1..], b[1..]);
    }
  }

  /** Strings of equal length that agree on a prefix compare by the rest. */
  lemma {:induction false} LexLessCommonPrefix(p: string, a: string, b: string)
    ensures LexLess(p + a, p + b) == LexLess(a, b)
  {
    if p != [] {
      assert (p + a)[0] == p[0] == (p + b)[0];
      assert (p + a)[1..] == p[1..] + a;
      assert (p + b)[1..] == p[1..] + b;
      assert LexLess(p + a, p + b) == LexLess((p + a)[1..], (p + b)[1..]);
      LexLessCommonPrefix(p[1..], a, b);
    } else {
      assert p + a == a && p + b == b;
    }
  }

  /** When the first characters differ they decide; the rest does not matter. */
  lemma LexLessHead(a: string, b: string, c: char, d: char)
    requires c != d
    ensures LexLess([c] + a, [d] + b) == (c < d)
  {
  }

  /** Strings compare on their first differing position: a common-length head decides first. */
  lemma {:induction false} LexLessConcat(a: string, b: string, c: string, d: string)
    requires |a| == |c|
    ensures LexLess(a + b, c + d) == (LexLess(a, c) || (a == c && LexLess(b, d)))
  {
    if a == [] {
      assert a + b == b && c + d == d;
    } else {
      assert (a + b)[0] == a[0] && (c + d)[0] == c[0];
      assert (a + b)[1..] == a[1..] + b;
      assert (c + d)[1..] == c[1..] + d;
      LexLessConcat(a[1..], b, c[1..], d);
      if a[0] == c[0] {
        assert a == [a[0]] + a[1..] && c == [c[0]] + c[1..];
      }
    }
  }

  /** Digit strings of one length: string order is numeric order, and equal values mean equal strings. */
  lemma {:induction false} DigitOrder(x: string, y: string)
    requires AllDigits(x) && AllDigits(y) && |x| == |y|
    ensures LexLess(x, y) <==> DigitsValue(x) < DigitsValue(y)
    ensures x == y <==> DigitsValue(x) == DigitsValue(y)
    decreases |x|
  {
    if x != [] {
      var n := |x| - 1;
      var x', y' := x[..n], y[..n];
      DigitOrder(x', y');
      FrontLast(x);
      FrontLast(y);
      LexLessConcat(x', [x[n]], y', [y[n]]);
    }
  }

  /** A string that neither starts nor ends with whitespace is its own trim. */
  lemma TrimNoop(s: string)
    requires s != [] && !IsWhitespace(s[0]) && !IsWhitespace(s[|s| - 1])
    ensures Trim(s) == s
  {
    assert TrimStart(s) == s;
    assert TrimEnd(s) == s;
  }

  /** A trailing space is trimmed away. */
  lemma TrimTrailingSpace(s: string)
    requires s != [] && !IsWhitespace(s[0]) && !IsWhitespace(s[|s| - 1])
    ensures Trim(s + " ") == s
  {
    var t := s + " ";
    assert TrimStart(t) == t;
    assert t[..|t| - 1] == s;
    assert TrimEnd(s) == s;
  }

  /** A string sorts before every longer string it begins. */
  lemma {:induction false} LexLessExtension(a: string, b: string)
    requires b != []
    ensures LexLess(a, a + b)
  {
    if a != [] {
      assert (a + b)[1..] == a[1..] + b;
      LexLessExtension(a[1..], b);
    }
  }

  lemma DigitsBound(s: string)
    requires AllDigits(s)
    ensures |s| <= 3 ==> DigitsValue(s) <= 999
    ensures |s| <= 4 ==> DigitsValue(s) <= 9999
  {
    if s != [] { DigitsBound(s[..|s| - 1]); }
  }
}
