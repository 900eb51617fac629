/** The JavaScript string primitives the catalog loader relies on: the `\s`
    character class (which `String.prototype.trim` strips as well), the
    combining-diacritical-mark range removed by the loader's regular
    expressions, ASCII/Latin-1 lower-casing, `includes`, and the decimal
    rendering of a number inside a template literal. */
module Text {

  /** JavaScript's WhiteSpace and LineTerminator characters: the set matched
      by `\s` in a regular expression and removed by `trim()`. It contains the
      byte-order mark U+FEFF. */
  predicate IsSpace(c: char) {
    var n := c as int;
    (9 <= n <= 13) || n == 0x20 || n == 0xA0 || n == 0x1680
    || (0x2000 <= n <= 0x200A) || n == 0x2028 || n == 0x2029
    || n == 0x202F || n == 0x205F || n == 0x3000 || n == 0xFEFF
  }

  /** A code point of the Combining Diacritical Marks block, U+0300..U+036F. */
  predicate IsCombiningMark(c: char) {
    0x300 <= c as int <= 0x36F
  }

  predicate NoMarks(s: string) {
    forall i :: 0 <= i < |s| ==> !IsCombiningMark(s[i])
  }

  /** Neither end of `s` is a whitespace character. */
  predicate NoEdgeSpace(s: string) {
    s == [] || (!IsSpace(s[0]) && !IsSpace(s[|s| - 1]))
  }

  /** `s` can be obtained from `t` by deleting elements. */
  predicate IsSubsequence<T(==)>(s: seq<T>, t: seq<T>)
    decreases |t|
  {
    if s == [] then true
    else if t == [] then false
    else (s[0] == t[0] && IsSubsequence(s[1..], t[1..])) || IsSubsequence(s, t[1..])
  }

  /** The loader's `replace` of the character class U+0300..U+036F with
      the empty string: every combining mark removed, the other characters
      kept (in order and as often as they occur: `StripMarksKeepsOthers`). */
  function StripMarks(s: string): (r: string)
    ensures NoMarks(r)
    ensures |r| <= |s|
    ensures forall c :: c in r <==> c in s && !IsCombiningMark(c)
  {
    if s == [] then []
    else if IsCombiningMark(s[0]) then StripMarks(s[1..])
    else [s[0]] + StripMarks(s[1..])
  }

  /** Removing marks keeps every other character in its order and as many
      times as it occurs, and nothing else. */
  lemma {:induction false} StripMarksKeepsOthers(s: string)
    ensures IsSubsequence(StripMarks(s), s)
    ensures forall c :: multiset(StripMarks(s))[c] == if IsCombiningMark(c) then 0 else multiset(s)[c]
  {
    if s != [] {
      var rest := StripMarks(s[1..]);
      StripMarksKeepsOthers(s[1..]);
      assert s == [s[0]] + s[1..];
      if !IsCombiningMark(s[0]) {
        assert ([s[0]] + rest)[1..] == rest;
      }
    }
  }

  /** Removing marks from a string that has none changes nothing. */
  lemma {:induction false} StripMarksNoop(s: string)
    requires NoMarks(s)
    ensures StripMarks(s) == s
  {
    if s != [] {
      StripMarksNoop(s[1..]);
    }
  }

  /** `sub` occurs in `s` at offset `k`. */
  predicate OccursAt(s: string, sub: string, k: int) {
    0 <= k <= |s| - |sub| && s[k..k + |sub|] == sub
  }

  predicate AllSpace(s: string) {
    forall i :: 0 <= i < |s| ==> IsSpace(s[i])
  }

  /** `String.prototype.trim`: `s` with its leading and trailing whitespace
      removed; the result has no whitespace at either end. */
  function Trim(s: string): (r: string)
    ensures NoEdgeSpace(r)
    ensures |r| <= |s|
    decreases |s|
  {
    if s != [] && IsSpace(s[0]) then Trim(s[1..])
    else if s != [] && IsSpace(s[|s| - 1]) then Trim(s[..|s| - 1])
    else s
  }

  /** `r` occurs in `s` at offset `k` with only whitespace around it. */
  predicate Framed(s: string, r: string, k: int) {
    OccursAt(s, r, k) && AllSpace(s[..k]) && AllSpace(s[k + |r|..])
  }

  /** A leading whitespace character widens the frame on the left. */
  lemma FramedAfterSpace(s: string, r: string, j: int)
    requires s != [] && IsSpace(s[0]) && Framed(s[1..], r, j)
    ensures Framed(s, r, j + 1)
  {
    var t := s[1..];
    assert s[j + 1..j + 1 + |r|] == t[j..j + |r|];
    assert s[..j + 1] == [s[0]] + t[..j];
    assert s[j + 1 + |r|..] == t[j + |r|..];
  }

  /** A trailing whitespace character widens the frame on the right. */
  lemma FramedBeforeSpace(s: string, r: string, k: int)
    requires s != [] && IsSpace(s[|s| - 1]) && Framed(s[..|s| - 1], r, k)
    ensures Framed(s, r, k)
  {
    var t := s[..|s| - 1];
    assert s[k..k + |r|] == t[k..k + |r|];
    assert s[..k] == t[..k];
    assert s[k + |r|..] == t[k + |r|..] + [s[|s| - 1]];
  }

  /** `Trim(s)` occurs in `s` at the offset `k` returned, and everything
      before and after it is whitespace: trimming removes whitespace and
      nothing else. */
  lemma {:induction false} TrimIsInfix(s: string) returns (k: nat)
    ensures Framed(s, Trim(s), k)
    decreases |s|
  {
    if s != [] && IsSpace(s[0]) {
      var j := TrimIsInfix(s[1..]);
      FramedAfterSpace(s, Trim(s), j);
      k := j + 1;
    } else if s != [] && IsSpace(s[|s| - 1]) {
      k := TrimIsInfix(s[..|s| - 1]);
      FramedBeforeSpace(s, Trim(s), k);
    } else {
      k := 0;
      assert s[..0] == [] && s[|s|..] == [];
    }
  }

  /** Trimming a string without whitespace at its ends changes nothing. */
  lemma TrimNoop(s: string)
    requires NoEdgeSpace(s)
    ensures Trim(s) == s
  {
  }

  /** Every character of `Trim(s)` occurs in `s`. */
  lemma {:induction false} TrimKeepsCharacters(s: string, c: char)
    requires c in Trim(s)
    ensures c in s
  {
    var r := Trim(s);
    var k := TrimIsInfix(s);
    var i :| 0 <= i < |r| && r[i] == c;
    assert s[k + i] == c;
  }

  /** Trimming a string without marks leaves none. */
  lemma TrimKeepsNoMarks(s: string)
    requires NoMarks(s)
    ensures NoMarks(Trim(s))
  {
    var r := Trim(s);
    var k := TrimIsInfix(s);
    forall i | 0 <= i < |r| ensures !IsCombiningMark(r[i]) {
      assert r[i] == s[k + i];
    }
  }

  /** A string made only of whitespace trims to the empty string. */
  lemma {:induction false} TrimBlank(s: string)
    requires AllSpace(s)
    ensures Trim(s) == []
  {
    var k := TrimIsInfix(s);
  }

  /** The upper-case letters the model lower-cases: A..Z and the Latin-1
      capitals U+00C0..U+00DE other than the multiplication sign U+00D7. */
  predicate IsUpper(c: char) {
    ('A' <= c <= 'Z') || (0xC0 <= c as int <= 0xDE && c as int != 0xD7)
  }

  /** The small letters paired with the capitals of `IsUpper`: a..z and
      U+00E0..U+00FE other than the division sign U+00F7. */
  predicate IsLower(c: char) {
    ('a' <= c <= 'z') || (0xE0 <= c as int <= 0xFE && c as int != 0xF7)
  }

  /** The capital of a small letter; any other character unchanged. */
  function UpperChar(c: char): char {
    if IsLower(c) then (c as int - 0x20) as char else c
  }

  /** A capital becomes its own small letter; nothing else changes. */
  function LowerChar(c: char): (d: char)
    ensures !IsUpper(d)
    ensures IsUpper(c) ==> IsLower(d) && UpperChar(d) == c
    ensures IsSpace(d) <==> IsSpace(c)
    ensures IsCombiningMark(d) <==> IsCombiningMark(c)
    ensures !IsUpper(c) ==> d == c
  {
    if IsUpper(c) then (c as int + 0x20) as char else c
  }

  /** `String.prototype.toLowerCase` over the letters `IsUpper` names: the
      same length, every capital replaced by its own small letter, every
      other character (in particular whitespace and marks) kept where it
      was. */
  function ToLowerCase(s: string): (r: string)
    ensures |r| == |s|
    ensures forall i :: 0 <= i < |r| ==> !IsUpper(r[i])
    ensures forall i :: 0 <= i < |r| ==> !IsUpper(s[i]) ==> r[i] == s[i]
    ensures forall i :: 0 <= i < |r| ==> IsUpper(s[i]) ==> IsLower(r[i]) && UpperChar(r[i]) == s[i]
    ensures forall i :: 0 <= i < |r| ==> (IsSpace(r[i]) <==> IsSpace(s[i]))
    ensures forall i :: 0 <= i < |r| ==> (IsCombiningMark(r[i]) <==> IsCombiningMark(s[i]))
  {
    seq(|s|, i requires 0 <= i < |s| => LowerChar(s[i]))
  }

  /** Lower-casing a string that has no upper-case letter changes nothing;
      so `ToLowerCase` is idempotent. */
  lemma {:induction false} ToLowerCaseNoop(s: string)
    requires forall i :: 0 <= i < |s| ==> !IsUpper(s[i])
    ensures ToLowerCase(s) == s
  {
  }

  /** `a` and `b` are the same character up to case: equal, or a small
      letter and its capital. */
  predicate CaseVariant(a: char, b: char) {
    a == b || UpperChar(a) == b || UpperChar(b) == a
  }

  /** `s` and `t` spell the same text, each letter in either case. */
  predicate SameUpToCase(s: string, t: string) {
    |s| == |t| && forall i :: 0 <= i < |s| ==> CaseVariant(s[i], t[i])
  }

  /** Case variants lower to the same character, and agree on being
      whitespace or a mark. */
  lemma CaseVariantLowersAlike(a: char, b: char)
    requires CaseVariant(a, b)
    ensures LowerChar(a) == LowerChar(b)
    ensures IsSpace(a) <==> IsSpace(b)
    ensures IsCombiningMark(a) <==> IsCombiningMark(b)
  {
  }

  /** `toLowerCase` makes texts that differ only in case equal. */
  lemma ToLowerCaseIgnoresCase(s: string, t: string)
    requires SameUpToCase(s, t)
    ensures ToLowerCase(s) == ToLowerCase(t)
  {
    forall i | 0 <= i < |s| ensures ToLowerCase(s)[i] == ToLowerCase(t)[i] {
      CaseVariantLowersAlike(s[i], t[i]);
    }
  }

  /** Removing marks from texts that differ only in case gives texts that
      differ only in case. */
  lemma {:induction false} StripMarksKeepsCaseVariants(s: string, t: string)
    requires SameUpToCase(s, t)
    ensures SameUpToCase(StripMarks(s), StripMarks(t))
    decreases |s|
  {
    if s != [] {
      CaseVariantLowersAlike(s[0], t[0]);
      CaseVariantsTail(s, t);
      StripMarksKeepsCaseVariants(s[1..], t[1..]);
      if !IsCombiningMark(s[0]) {
        CaseVariantsCons(s[0], t[0], StripMarks(s[1..]), StripMarks(t[1..]));
      }
    }
  }

  lemma CaseVariantsTail(s: string, t: string)
    requires SameUpToCase(s, t) && s != []
    ensures SameUpToCase(s[1..], t[1..])
  {
    forall i | 0 <= i < |s| - 1 ensures CaseVariant(s[1..][i], t[1..][i]) {
      assert s[1..][i] == s[i + 1] && t[1..][i] == t[i + 1];
    }
  }

  lemma CaseVariantsCons(x: char, y: char, a: string, b: string)
    requires CaseVariant(x, y) && SameUpToCase(a, b)
    ensures SameUpToCase([x] + a, [y] + b)
  {
    forall i | 0 <= i < |a| + 1 ensures CaseVariant(([x] + a)[i], ([y] + b)[i]) {
      if i > 0 {
        assert ([x] + a)[i] == a[i - 1] && ([y] + b)[i] == b[i - 1];
      }
    }
  }

  /** Trimming texts that differ only in case gives texts that differ only
      in case. */
  lemma {:induction false} TrimKeepsCaseVariants(s: string, t: string)
    requires SameUpToCase(s, t)
    ensures SameUpToCase(Trim(s), Trim(t))
    decreases |s|
  {
    if s != [] {
      CaseVariantLowersAlike(s[0], t[0]);
      CaseVariantLowersAlike(s[|s| - 1], t[|t| - 1]);
      if IsSpace(s[0]) {
        TrimKeepsCaseVariants(s[1..], t[1..]);
      } else if IsSpace(s[|s| - 1]) {
        TrimKeepsCaseVariants(s[..|s| - 1], t[..|t| - 1]);
      }
    }
  }

  predicate StartsWith(s: string, prefix: string) {
    |prefix| <= |s| && s[..|prefix|] == prefix
  }

  predicate EndsWith(s: string, suffix: string) {
    |suffix| <= |s| && s[|s| - |suffix|..] == suffix
  }

  /** `s.includes(sub)`: `sub` starts at some position of `s`. */
  predicate Includes(s: string, sub: string)
    decreases |s|
  {
    StartsWith(s, sub) || (s != [] && Includes(s[1..], sub))
  }

  /** `Includes` holds exactly when `sub` is the slice of `s` at some offset. */
  lemma {:induction false} IncludesIff(s: string, sub: string)
    ensures Includes(s, sub) <==> exists i :: OccursAt(s, sub, i)
    decreases |s|
  {
    if s == [] {
      if sub == [] {
        assert OccursAt(s, sub, 0);
      }
      if exists i :: OccursAt(s, sub, i) {
        var i :| OccursAt(s, sub, i);
        assert i == 0;
      }
    } else {
      IncludesIff(s[1..], sub);
      if StartsWith(s, sub) {
        assert OccursAt(s, sub, 0);
      } else if Includes(s[1..], sub) {
        var i :| OccursAt(s[1..], sub, i);
        assert s[1..][i..i + |sub|] == s[i + 1..i + 1 + |sub|];
        assert OccursAt(s, sub, i + 1);
      }
      if exists i :: OccursAt(s, sub, i) {
        var i :| OccursAt(s, sub, i);
        if i > 0 {
          assert s[1..][i - 1..i - 1 + |sub|] == s[i..i + |sub|];
          assert OccursAt(s[1..], sub, i - 1);
        }
      }
    }
  }

  /** Every string includes the empty string. */
  lemma IncludesEmpty(s: string)
    ensures Includes(s, [])
  {
  }

  function Digit(d: nat): (c: char)
    requires d < 10
    ensures '0' <= c <= '9'
    ensures c as int - '0' as int == d
  {
    ('0' as int + d) as char
  }

  /** The decimal numeral a template literal renders for `n`: at least one
      digit, nothing but digits, and no leading zero unless `n` is 0. */
  function DecimalString(n: nat): (r: string)
    ensures |r| >= 1
    ensures forall i :: 0 <= i < |r| ==> '0' <= r[i] <= '9'
    ensures n >= 10 ==> |r| >= 2
    ensures r[0] == '0' <==> n == 0
  {
    if n < 10 then [Digit(n)] else DecimalString(n / 10) + [Digit(n % 10)]
  }

  /** The number a string of decimal digits denotes, read left to right. */
  function NumeralValue(s: string): int
    decreases |s|
  {
    if s == [] then 0
    else NumeralValue(s[..|s| - 1]) * 10 + (s[|s| - 1] as int - '0' as int)
  }

  /** The numeral of `n` denotes `n`. */
  lemma {:induction false} NumeralRoundTrip(n: nat)
    ensures NumeralValue(DecimalString(n)) == n
  {
    var s := DecimalString(n);
    if n < 10 {
      assert s[..0] == [];
    } else {
      assert s[..|s| - 1] == DecimalString(n / 10);
      NumeralRoundTrip(n / 10);
    }
  }

  /** Distinct numbers have distinct numerals. */
  lemma DecimalStringInjective(n: nat, m: nat)
    requires DecimalString(n) == DecimalString(m)
    ensures n == m
  {
    NumeralRoundTrip(n);
    NumeralRoundTrip(m);
  }
}
