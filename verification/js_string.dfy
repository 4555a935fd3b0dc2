/**
 * The JavaScript string operations the task views rely on: `trim`, `toLowerCase`,
 * `includes`, `startsWith`, `length`, `slice(0, n)` and the decimal rendering of numbers.
 *
 * A string is a sequence of Unicode scalar values. JavaScript measures strings in UTF-16
 * code units, so `JsLength` counts a character outside the Basic Multilingual Plane twice.
 */
module JsString {

  /** The characters `String.prototype.trim` removes: ECMAScript WhiteSpace and LineTerminator. */
  predicate IsWhitespace(c: char) {
    || c == '\U{0009}' || c == '\U{000A}' || c == '\U{000B}' || c == '\U{000C}' || c == '\U{000D}'
    || c == ' ' || c == '\U{00A0}' || c == '\U{1680}' || ('\U{2000}' <= c <= '\U{200A}')
    || c == '\U{2028}' || c == '\U{2029}' || c == '\U{202F}' || c == '\U{205F}'
    || c == '\U{3000}' || c == '\U{FEFF}'
  }

  /** `trimStart`: drops the leading whitespace and nothing else. */
  function TrimStart(s: string): (r: string)
    ensures |r| <= |s| && r == s[|s| - |r|..]
    ensures forall i :: 0 <= i < |s| - |r| ==> IsWhitespace(s[i])
    ensures |r| > 0 ==> !IsWhitespace(r[0])
  {
    if |s| > 0 && IsWhitespace(s[0]) then TrimStart(s[1..]) else s
  }

  /** `trimEnd`: drops the trailing whitespace and nothing else. */
  function TrimEnd(s: string): (r: string)
    ensures |r| <= |s| && r == s[..|r|]
    ensures forall i :: |r| <= i < |s| ==> IsWhitespace(s[i])
    ensures |r| > 0 ==> !IsWhitespace(r[|r| - 1])
  {
    if |s| > 0 && IsWhitespace(s[|s| - 1]) then TrimEnd(s[..|s| - 1]) else s
  }

  /** `r` sits at offset `a` of `s`, and everything of `s` around it is whitespace. */
  ghost predicate TrimmedAt(s: string, r: string, a: int) {
    && 0 <= a && a + |r| <= |s|
    && s[a..a + |r|] == r
    && (forall i :: 0 <= i < a ==> IsWhitespace(s[i]))
    && (forall i :: a + |r| <= i < |s| ==> IsWhitespace(s[i]))
  }

  /** `trim`: removes whitespace at both ends. */
  function Trim(s: string): (r: string)
    ensures |r| <= |s|
    ensures |r| > 0 ==> !IsWhitespace(r[0]) && !IsWhitespace(r[|r| - 1])
  {
    TrimEnd(TrimStart(s))
  }

  /**
   * What `trim` leaves is an infix of the input with only whitespace around it; it starts
   * where `trimStart` stops.
   */
  lemma TrimIsInfix(s: string)
    ensures TrimmedAt(s, Trim(s), |s| - |TrimStart(s)|)
  {
    var t := TrimStart(s);
    TrimEndInfix(s, t, |s| - |t|);
  }

  /** Trimming the end of a suffix that follows whitespace leaves an infix with whitespace around it. */
  lemma TrimEndInfix(s: string, t: string, a: int)
    requires 0 <= a <= |s| && t == s[a..]
    requires forall i :: 0 <= i < a ==> IsWhitespace(s[i])
    ensures TrimmedAt(s, TrimEnd(t), a)
  {
    var r := TrimEnd(t);
    assert s[a..a + |r|] == r;
    forall i | a + |r| <= i < |s|
      ensures IsWhitespace(s[i])
    {
      assert s[i] == t[i - a];
    }
  }

  /** A string JavaScript's `!s.trim()` treats as empty. */
  predicate IsBlank(s: string) {
    Trim(s) == []
  }

  /** A string is blank exactly when every character of it is whitespace. */
  lemma BlankIffAllWhitespace(s: string)
    ensures IsBlank(s) <==> forall i :: 0 <= i < |s| ==> IsWhitespace(s[i])
  {
    var r := Trim(s);
    var a := |s| - |TrimStart(s)|;
    TrimIsInfix(s);
    if |r| > 0 {
      assert r[0] == s[a];
    }
  }

  /** A string that starts with something non-blank is not blank. */
  lemma BlankPrefix(a: string, b: string)
    ensures IsBlank(a + b) ==> IsBlank(a)
  {
    BlankIffAllWhitespace(a + b);
    BlankIffAllWhitespace(a);
    assert forall i :: 0 <= i < |a| ==> (a + b)[i] == a[i];
  }

  /** Trimming twice is trimming once. */
  lemma TrimIdempotent(s: string)
    ensures Trim(Trim(s)) == Trim(s)
  {
    var r := Trim(s);
    assert TrimStart(r) == r;
    assert TrimEnd(r) == r;
  }

  /** Length in UTF-16 code units of one character. */
  function Utf16Units(c: char): nat {
    if c as int > 0xFFFF then 2 else 1
  }

  /** JavaScript's `s.length`: the number of UTF-16 code units. */
  function JsLength(s: string): (n: nat)
    ensures |s| <= n <= 2 * |s|
  {
    if |s| == 0 then 0 else Utf16Units(s[0]) + JsLength(s[1..])
  }

  lemma {:induction false} JsLengthConcat(a: string, b: string)
    ensures JsLength(a + b) == JsLength(a) + JsLength(b)
    decreases |a|
  {
    if |a| > 0 {
      assert (a + b)[1..] == a[1..] + b;
      JsLengthConcat(a[1..], b);
    } else {
      assert a + b == b;
    }
  }

  /** Dropping a prefix never makes a string longer. */
  lemma {:induction false} JsLengthDrop(s: string, a: nat)
    requires a <= |s|
    ensures JsLength(s[a..]) <= JsLength(s)
    decreases a
  {
    if a > 0 {
      assert s[a..] == s[1..][a - 1..];
      JsLengthDrop(s[1..], a - 1);
    }
  }

  /** Keeping a prefix never makes a string longer. */
  lemma {:induction false} JsLengthTake(s: string, b: nat)
    requires b <= |s|
    ensures JsLength(s[..b]) <= JsLength(s)
    decreases b
  {
    if b > 0 {
      assert s[..b][1..] == s[1..][..b - 1];
      JsLengthTake(s[1..], b - 1);
    }
  }

  /** Trimming never makes a string longer. */
  lemma JsLengthTrim(s: string)
    ensures JsLength(Trim(s)) <= JsLength(s)
  {
    var t := TrimStart(s);
    JsLengthDrop(s, |s| - |t|);
    JsLengthTake(t, |TrimEnd(t)|);
  }

  /**
   * `s.slice(0, n)`: the longest prefix of at most `n` code units. A surrogate pair that the
   * JavaScript slice would cut in half is left out whole.
   */
  function JsSlicePrefix(s: string, n: nat): (r: string)
    ensures r <= s
    ensures JsLength(r) <= n
    ensures |r| < |s| ==> JsLength(r) + Utf16Units(s[|r|]) > n
  {
    if |s| == 0 || Utf16Units(s[0]) > n then []
    else [s[0]] + JsSlicePrefix(s[1..], n - Utf16Units(s[0]))
  }

  /** A string of one-unit characters is as long in code units as in characters. */
  lemma {:induction false} JsLengthOneUnit(s: string)
    requires forall i :: 0 <= i < |s| ==> Utf16Units(s[i]) == 1
    ensures JsLength(s) == |s|
    decreases |s|
  {
    if |s| > 0 {
      assert forall i :: 0 <= i < |s| - 1 ==> s[1..][i] == s[i + 1];
      JsLengthOneUnit(s[1..]);
    }
  }

  /** On a string of one-unit characters, `slice(0, n)` keeps exactly the first `n` characters. */
  lemma JsSlicePrefixOneUnit(s: string, n: nat)
    requires forall i :: 0 <= i < |s| ==> Utf16Units(s[i]) == 1
    ensures JsSlicePrefix(s, n) == s[..if n < |s| then n else |s|]
  {
    var r := JsSlicePrefix(s, n);
    assert r == s[..|r|];
    JsLengthOneUnit(r);
  }

  /** Within a string of at most `n` units, a prefix plus its next character still fits in `n`. */
  lemma PrefixAndNextFit(s: string, r: string, n: nat)
    requires r <= s && |r| < |s| && JsLength(s) <= n
    ensures JsLength(r) + Utf16Units(s[|r|]) <= n
  {
    var c := s[|r|];
    assert JsLength([c]) == Utf16Units(c);
    assert s[..|r| + 1] == r + [c];
    JsLengthTake(s, |r| + 1);
    JsLengthConcat(r, [c]);
  }

  /** Slicing a string that is already short enough returns it whole. */
  lemma JsSlicePrefixShort(s: string, n: nat)
    requires JsLength(s) <= n
    ensures JsSlicePrefix(s, n) == s
  {
    var r := JsSlicePrefix(s, n);
    if |r| < |s| {
      PrefixAndNextFit(s, r, n);
    }
  }

  /** ASCII case mapping, the part of `toLowerCase` this model covers. */
  function LowerChar(c: char): char {
    if 'A' <= c <= 'Z' then (c as int + 32) as char else c
  }

  /** `s.toLowerCase()`, character by character. */
  function ToLower(s: string): (r: string)
    ensures |r| == |s|
    ensures forall i :: 0 <= i < |s| ==> r[i] == LowerChar(s[i])
  {
    if |s| == 0 then [] else [LowerChar(s[0])] + ToLower(s[1..])
  }

  lemma ToLowerConcat(a: string, b: string)
    ensures ToLower(a + b) == ToLower(a) + ToLower(b)
  {
    assert forall i :: 0 <= i < |a + b| ==> ToLower(a + b)[i] == (ToLower(a) + ToLower(b))[i];
  }

  /** Lower-casing does not change which characters are whitespace, so nor which strings are blank. */
  lemma ToLowerKeepsBlank(s: string)
    ensures IsBlank(ToLower(s)) <==> IsBlank(s)
  {
    var l := ToLower(s);
    assert forall i :: 0 <= i < |s| ==> (IsWhitespace(l[i]) <==> IsWhitespace(s[i])) by {
      forall i | 0 <= i < |s|
        ensures IsWhitespace(l[i]) <==> IsWhitespace(s[i])
      {
        LowerCharKeepsWhitespace(s[i]);
      }
    }
    BlankIffAllWhitespace(s);
    BlankIffAllWhitespace(l);
  }

  lemma LowerCharKeepsWhitespace(c: char)
    ensures IsWhitespace(LowerChar(c)) <==> IsWhitespace(c)
  {
  }

  /** `s.startsWith(p)`. */
  predicate StartsWith(s: string, p: string) {
    |p| <= |s| && s[..|p|] == p
  }

  /** `n` occurs in `h` at offset `i`. */
  predicate OccursAt(h: string, n: string, i: int) {
    0 <= i && i + |n| <= |h| && h[i..i + |n|] == n
  }

  /** `h.includes(n)`: scans `h` from the left for an occurrence of `n`. */
  predicate Includes(h: string, n: string)
    decreases |h|
  {
    StartsWith(h, n) || (|h| > 0 && Includes(h[1..], n))
  }

  /** The scan finds `n` exactly when `n` occurs somewhere in `h`. */
  lemma {:induction false} IncludesIffOccurs(h: string, n: string)
    ensures Includes(h, n) <==> exists i :: OccursAt(h, n, i)
    decreases |h|
  {
    if StartsWith(h, n) {
      assert OccursAt(h, n, 0);
    } else if |h| > 0 {
      IncludesIffOccurs(h[1..], n);
      if Includes(h[1..], n) {
        var i :| OccursAt(h[1..], n, i);
        assert h[1..][i..i + |n|] == h[i + 1..i + 1 + |n|];
        assert OccursAt(h, n, i + 1);
      }
      if exists i :: OccursAt(h, n, i) {
        var i :| OccursAt(h, n, i);
        assert i != 0;
        assert h[1..][i - 1..i - 1 + |n|] == h[i..i + |n|];
        assert OccursAt(h[1..], n, i - 1);
      }
    }
  }

  /** A string containing `p + x` contains `p`: lengthening a query only narrows what it finds. */
  lemma IncludesExtension(h: string, p: string, x: string)
    requires Includes(h, p + x)
    ensures Includes(h, p)
  {
    IncludesIffOccurs(h, p + x);
    IncludesIffOccurs(h, p);
    var i :| OccursAt(h, p + x, i);
    assert h[i..i + |p|] == (p + x)[..|p|] == p;
    assert OccursAt(h, p, i);
  }

  /** A needle longer than the haystack is never found. */
  lemma IncludesNeedsRoom(h: string, n: string)
    requires |n| > |h|
    ensures !Includes(h, n)
  {
    IncludesIffOccurs(h, n);
  }

  /** One decimal digit. */
  function DigitChar(d: nat): char
    requires d < 10
  {
    ('0' as int + d) as char
  }

  /** The decimal rendering of a non-negative integer, as `${n}` writes it. */
  function Decimal(n: nat): (r: string)
    ensures 0 < |r|
    ensures forall i :: 0 <= i < |r| ==> '0' <= r[i] <= '9'
    ensures n >= 10 ==> |r| >= 2
  {
    if n < 10 then [DigitChar(n)] else Decimal(n / 10) + [DigitChar(n % 10)]
  }

  /** Distinct numbers render as distinct strings. */
  lemma {:induction false} DecimalInjective(a: nat, b: nat)
    requires Decimal(a) == Decimal(b)
    ensures a == b
    decreases a
  {
    if a >= 10 && b >= 10 {
      var da, db := Decimal(a), Decimal(b);
      assert da[..|da| - 1] == Decimal(a / 10);
      assert db[..|db| - 1] == Decimal(b / 10);
      assert da[|da| - 1] == DigitChar(a % 10);
      assert db[|db| - 1] == DigitChar(b % 10);
      DecimalInjective(a / 10, b / 10);
    } else if a < 10 && b < 10 {
      assert Decimal(a)[0] == DigitChar(a);
      assert Decimal(b)[0] == DigitChar(b);
    }
  }

  /** `String(n)` for an integer-valued number. */
  function NumberToString(n: int): (r: string)
    ensures 0 < |r| && (r[0] == '-' || '0' <= r[0] <= '9')
  {
    if n < 0 then "-" + Decimal(-n) else Decimal(n)
  }
}
