/** String helpers standing in for the JavaScript string operations the drink
    tracker's aggregation code relies on: `toLowerCase`/`toUpperCase` (ASCII
    letters only), `trim`, `split(' ')` and `join(' ')`, the tracker's own
    `toTitleCase` and `capitalize`, `String(n)` and `parseInt` on whole
    numbers, and the default string comparison of `Array.prototype.sort`. */
module Text {

  import opened Wrappers

  // ---------------------------------------------------------------- characters

  /** `toLowerCase` on one character (ASCII letters only). */
  function LowerChar(c: char): char
  {
    if 'A' <= c <= 'Z' then (c as int + 32) as char else c
  }

  /** `toUpperCase` on one character (ASCII letters only). */
  function UpperChar(c: char): char
  {
    if 'a' <= c <= 'z' then (c as int - 32) as char else c
  }

  /** The characters `String.prototype.trim` removes: ECMAScript WhiteSpace
      and LineTerminator code points. */
  predicate IsJsWhitespace(c: char)
  {
    || c == '\t' || c == '\n' || c == '\U{000B}' || c == '\U{000C}' || c == '\r'
    || c == ' ' || c == '\U{00A0}' || c == '\U{1680}' || ('\U{2000}' <= c <= '\U{200A}')
    || c == '\U{2028}' || c == '\U{2029}' || c == '\U{202F}' || c == '\U{205F}'
    || c == '\U{3000}' || c == '\U{FEFF}'
  }

  lemma CaseMapFacts(c: char)
    ensures LowerChar(LowerChar(c)) == LowerChar(c)
    ensures LowerChar(UpperChar(c)) == LowerChar(c)
    ensures UpperChar(LowerChar(c)) == UpperChar(c)
    ensures UpperChar(UpperChar(c)) == UpperChar(c)
    ensures LowerChar(c) == ' ' <==> c == ' '
    ensures UpperChar(c) == ' ' <==> c == ' '
    ensures IsJsWhitespace(LowerChar(c)) <==> IsJsWhitespace(c)
    ensures IsJsWhitespace(UpperChar(c)) <==> IsJsWhitespace(c)
  {
  }

  /** `s.toLowerCase()`. */
  function ToLower(s: string): (r: string)
    ensures |r| == |s|
    ensures forall i :: 0 <= i < |s| ==> r[i] == LowerChar(s[i])
  {
    seq(|s|, i requires 0 <= i < |s| => LowerChar(s[i]))
  }

  /** Lower-casing leaves no upper-case letter, changes no character that
      is not one, keeps every character's upper-case form, and is
      idempotent. */
  lemma ToLowerFacts(s: string)
    ensures forall i :: 0 <= i < |s| ==> !('A' <= ToLower(s)[i] <= 'Z')
    ensures forall i :: 0 <= i < |s| && !('A' <= s[i] <= 'Z') ==> ToLower(s)[i] == s[i]
    ensures forall i :: 0 <= i < |s| ==> UpperChar(ToLower(s)[i]) == UpperChar(s[i])
    ensures ToLower(ToLower(s)) == ToLower(s)
  {
    forall i | 0 <= i < |s|
      ensures ToLower(ToLower(s))[i] == ToLower(s)[i]
    {
      CaseMapFacts(s[i]);
    }
  }

  // ------------------------------------------------------ split, join, case

  /** `s.split(' ')`: the pieces between single spaces; `k` spaces give
      `k + 1` pieces, some of which may be empty. */
  function Split(s: string): (words: seq<string>)
    ensures |words| >= 1
    ensures forall i :: 0 <= i < |words| ==> ' ' !in words[i]
  {
    if s == [] then [[]]
    else
      var rest := Split(s[1..]);
      if s[0] == ' ' then [[]] + rest
      else [[s[0]] + rest[0]] + rest[1..]
  }

  /** `words.join(' ')`. */
  function Join(words: seq<string>): string
  {
    if words == [] then []
    else if |words| == 1 then words[0]
    else words[0] + " " + Join(words[1..])
  }

  /** Splitting on spaces and joining with spaces gives the string back. */
  lemma {:induction false} JoinSplit(s: string)
    ensures Join(Split(s)) == s
  {
    if s != [] {
      JoinSplit(s[1..]);
      var rest := Split(s[1..]);
      if s[0] == ' ' {
        assert Split(s) == [[]] + rest;
        assert Split(s)[1..] == rest;
      } else {
        var words := Split(s);
        assert words[0] == [s[0]] + rest[0];
        assert words[1..] == rest[1..];
        if |rest| > 1 {
          assert Join(rest) == rest[0] + " " + Join(rest[1..]);
        }
      }
    }
  }

  /** The tracker's `capitalize`: upper-cases the first character only and
      returns the empty string unchanged. */
  function Capitalize(s: string): (r: string)
    ensures |r| == |s|
    ensures s != [] ==> r[0] == UpperChar(s[0])
    ensures forall i :: 0 < i < |s| ==> r[i] == s[i]
  {
    if s == [] then s else [UpperChar(s[0])] + s[1..]
  }

  /** Capitalizing twice is capitalizing once, and capitalizing never changes
      the lower-case form of a string. */
  lemma CapitalizeIdempotent(s: string)
    ensures Capitalize(Capitalize(s)) == Capitalize(s)
    ensures ToLower(Capitalize(s)) == ToLower(s)
  {
    if s != [] {
      CaseMapFacts(s[0]);
      assert Capitalize(Capitalize(s))[0] == Capitalize(s)[0];
      assert ToLower(Capitalize(s))[0] == ToLower(s)[0];
    }
  }

  function CapitalizeEach(words: seq<string>): (r: seq<string>)
    ensures |r| == |words|
    ensures forall i :: 0 <= i < |words| ==> r[i] == Capitalize(words[i])
  {
    seq(|words|, i requires 0 <= i < |words| => Capitalize(words[i]))
  }

  /** Position `i` of `s` begins a space-separated word. */
  predicate WordStart(s: string, i: int)
    requires 0 <= i < |s|
  {
    i == 0 || s[i - 1] == ' '
  }

  /** Capitalizing every space-free word and joining them upper-cases exactly
      the word-initial characters of the joined string. */
  lemma {:induction false} JoinCapitalizeEach(words: seq<string>)
    requires |words| >= 1
    requires forall i :: 0 <= i < |words| ==> ' ' !in words[i]
    ensures |Join(CapitalizeEach(words))| == |Join(words)|
    ensures forall i :: 0 <= i < |Join(words)| ==>
      Join(CapitalizeEach(words))[i] ==
        (if WordStart(Join(words), i) then UpperChar(Join(words)[i]) else Join(words)[i])
  {
    var w := words[0];
    if |words| == 1 {
      assert CapitalizeEach(words) == [Capitalize(w)];
      forall i | 0 < i < |w|
        ensures !WordStart(w, i)
      {
        assert w[i - 1] in w;
      }
    } else {
      var tail := words[1..];
      JoinCapitalizeEach(tail);
      var caps := CapitalizeEach(words);
      assert caps[1..] == CapitalizeEach(tail);
      assert Join(words) == w + " " + Join(tail);
      assert Join(caps) == Capitalize(w) + " " + Join(CapitalizeEach(tail));
      CapitalizeFirstWord(w, Join(tail), Join(CapitalizeEach(tail)), Join(words), Join(caps));
    }
  }

  /** Capitalizing a space-free first word in front of a joined rest whose
      word-initial characters are already upper-cased upper-cases exactly
      the word-initial characters of the whole. */
  lemma CapitalizeFirstWord(w: string, ut: string, rt: string, u: string, r: string)
    requires ' ' !in w
    requires |rt| == |ut|
    requires forall j :: 0 <= j < |ut| ==> rt[j] == (if WordStart(ut, j) then UpperChar(ut[j]) else ut[j])
    requires u == w + " " + ut && r == Capitalize(w) + " " + rt
    ensures |r| == |u|
    ensures forall i :: 0 <= i < |u| ==> r[i] == (if WordStart(u, i) then UpperChar(u[i]) else u[i])
  {
    forall i | 0 <= i < |u|
      ensures r[i] == (if WordStart(u, i) then UpperChar(u[i]) else u[i])
    {
      var n := |w|;
      if i < n {
        if i > 0 {
          assert u[i - 1] == w[i - 1];
          assert w[i - 1] in w;
        }
      } else if i > n {
        var j := i - n - 1;
        assert u[i] == ut[j] && r[i] == rt[j];
        if j > 0 {
          assert u[i - 1] == ut[j - 1];
        }
      }
    }
  }

  /** The tracker's `toTitleCase`: lower-case the string, split it on single
      spaces, upper-case the first character of every word, join with
      single spaces. */
  function TitleCase(s: string): (r: string)
    ensures |r| == |s|
    ensures forall i :: 0 <= i < |s| ==>
      r[i] == (if WordStart(s, i) then UpperChar(s[i]) else LowerChar(s[i]))
  {
    var lower := ToLower(s);
    JoinSplit(lower);
    JoinCapitalizeEach(Split(lower));
    TitleCaseWordStarts(s);
    Join(CapitalizeEach(Split(lower)))
  }

  lemma TitleCaseWordStarts(s: string)
    ensures forall i :: 0 <= i < |s| ==>
      (WordStart(ToLower(s), i) <==> WordStart(s, i)) &&
      UpperChar(ToLower(s)[i]) == UpperChar(s[i])
  {
    forall i | 0 <= i < |s|
      ensures (WordStart(ToLower(s), i) <==> WordStart(s, i))
      ensures UpperChar(ToLower(s)[i]) == UpperChar(s[i])
    {
      CaseMapFacts(s[i]);
      if i > 0 {
        CaseMapFacts(s[i - 1]);
      }
    }
  }

  /** Title case changes no space, and no character into or out of
      whitespace. */
  lemma TitleCaseKeepsSpacing(s: string)
    ensures forall i :: 0 <= i < |s| ==>
      (TitleCase(s)[i] == ' ' <==> s[i] == ' ') &&
      (IsJsWhitespace(TitleCase(s)[i]) <==> IsJsWhitespace(s[i]))
  {
    forall i | 0 <= i < |s|
      ensures TitleCase(s)[i] == ' ' <==> s[i] == ' '
      ensures IsJsWhitespace(TitleCase(s)[i]) <==> IsJsWhitespace(s[i])
    {
      CaseMapFacts(s[i]);
    }
  }

  /** `toTitleCase` is idempotent. */
  lemma TitleCaseIdempotent(s: string)
    ensures TitleCase(TitleCase(s)) == TitleCase(s)
  {
    var t := TitleCase(s);
    TitleCaseKeepsSpacing(s);
    forall i | 0 <= i < |s|
      ensures TitleCase(t)[i] == t[i]
    {
      CaseMapFacts(s[i]);
      assert WordStart(t, i) <==> WordStart(s, i);
    }
  }

  /** `toTitleCase` never changes the lower-case form of a string. */
  lemma TitleCaseLower(s: string)
    ensures ToLower(TitleCase(s)) == ToLower(s)
  {
    forall i | 0 <= i < |s|
      ensures ToLower(TitleCase(s))[i] == ToLower(s)[i]
    {
      CaseMapFacts(s[i]);
    }
  }

  /** Two strings have the same title case exactly when they differ only in
      the case of their letters. */
  lemma TitleCaseSameIffSameLower(a: string, b: string)
    ensures TitleCase(a) == TitleCase(b) <==> ToLower(a) == ToLower(b)
  {
    if TitleCase(a) == TitleCase(b) {
      TitleCaseLower(a);
      TitleCaseLower(b);
    }
    if ToLower(a) == ToLower(b) {
      TitleCaseWordStarts(a);
      TitleCaseWordStarts(b);
      forall i | 0 <= i < |a|
        ensures TitleCase(a)[i] == TitleCase(b)[i]
      {
        assert ToLower(a)[i] == ToLower(b)[i];
      }
    }
  }

  // ---------------------------------------------------------------- trim

  predicate AllWhitespace(s: string)
  {
    forall k :: 0 <= k < |s| ==> IsJsWhitespace(s[k])
  }

  /** True of a string `trim` leaves unchanged. */
  predicate IsTrimmed(s: string)
  {
    s == [] || (!IsJsWhitespace(s[0]) && !IsJsWhitespace(s[|s| - 1]))
  }

  function LeadingWhitespace(s: string): (n: nat)
    ensures n <= |s|
    ensures AllWhitespace(s[..n])
    ensures n < |s| ==> !IsJsWhitespace(s[n])
  {
    if s != [] && IsJsWhitespace(s[0]) then 1 + LeadingWhitespace(s[1..]) else 0
  }

  function TrailingWhitespace(s: string): (n: nat)
    ensures n <= |s|
    ensures AllWhitespace(s[|s| - n..])
    ensures n < |s| ==> !IsJsWhitespace(s[|s| - 1 - n])
  {
    if s != [] && IsJsWhitespace(s[|s| - 1]) then 1 + TrailingWhitespace(s[..|s| - 1]) else 0
  }

  /** `s.trim()`: the result is `s` without its leading and trailing
      whitespace, and has none of its own at either end. */
  function Trim(s: string): (r: string)
    ensures IsTrimmed(r)
    ensures exists i :: (0 <= i <= |s| - |r| && AllWhitespace(s[..i]) &&
                         s[i..][..|r|] == r && AllWhitespace(s[i..][|r|..]))
  {
    var a := LeadingWhitespace(s);
    var rest := s[a..];
    var b := TrailingWhitespace(rest);
    var r := rest[..|rest| - b];
    assert rest[|r|..] == rest[|rest| - b..];
    assert s[a..][..|r|] == r;
    r
  }

  /** Trimming a string without whitespace at either end changes nothing;
      in particular `trim` is idempotent. */
  lemma TrimTrimmed(s: string)
    requires IsTrimmed(s)
    ensures Trim(s) == s
  {
    assert LeadingWhitespace(s) == 0;
    assert TrailingWhitespace(s) == 0;
  }

  /** Title-casing a trimmed string leaves it trimmed. */
  lemma TitleCaseTrimmed(s: string)
    requires IsTrimmed(s)
    ensures IsTrimmed(TitleCase(s))
  {
    TitleCaseKeepsSpacing(s);
  }

  // ------------------------------------------------------- whole numbers

  predicate IsDigit(c: char)
  {
    '0' <= c <= '9'
  }

  function DigitChar(d: int): char
    requires 0 <= d < 10
  {
    ('0' as int + d) as char
  }

  function DigitValue(c: char): int
  {
    c as int - '0' as int
  }

  /** `String(n)` for a non-negative whole number: its decimal digits,
      without leading zeros. */
  function Digits(n: nat): (r: string)
    ensures r != []
    ensures forall i :: 0 <= i < |r| ==> IsDigit(r[i])
    ensures |r| == 1 <==> n < 10
  {
    if n < 10 then [DigitChar(n)] else Digits(n / 10) + [DigitChar(n % 10)]
  }

  /** The number a string of decimal digits denotes. */
  function DigitsValue(s: string): int
  {
    if s == [] then 0 else 10 * DigitsValue(s[..|s| - 1]) + DigitValue(s[|s| - 1])
  }

  /** Reading back the digits of `n` gives `n`. */
  lemma {:induction false} DigitsRoundTrip(n: nat)
    ensures DigitsValue(Digits(n)) == n
  {
    if n >= 10 {
      DigitsRoundTrip(n / 10);
      var d := Digits(n);
      assert d[..|d| - 1] == Digits(n / 10);
    }
  }

  lemma DigitsInjective(a: nat, b: nat)
    ensures Digits(a) == Digits(b) <==> a == b
  {
    DigitsRoundTrip(a);
    DigitsRoundTrip(b);
  }

  /** Four-digit numbers have four digits. */
  lemma FourDigits(n: nat)
    requires 1000 <= n <= 9999
    ensures |Digits(n)| == 4
  {
    assert |Digits(n / 1000)| == 1;
    assert |Digits(n / 100)| == 2;
    assert |Digits(n / 10)| == 3;
  }

  /** The number a string's leading run of decimal digits spells, if it has
      one: `parseInt` on a run of decimal digits, as in the year part of a
      month key. */
  function ParseLeadingDigits(s: string): (r: Option<int>)
  {
    var n := LeadingDigitCount(s);
    if n == 0 then None else Some(DigitsValue(s[..n]))
  }

  function LeadingDigitCount(s: string): (n: nat)
    ensures n <= |s|
    ensures forall k :: 0 <= k < n ==> IsDigit(s[k])
    ensures n < |s| ==> !IsDigit(s[n])
  {
    if s != [] && IsDigit(s[0]) then 1 + LeadingDigitCount(s[1..]) else 0
  }

  // ----------------------------------------------------- string ordering

  /** `a < b` for JavaScript strings, which is also the order the default
      `Array.prototype.sort` uses: a proper prefix comes first, otherwise the
      first differing character decides. */
  predicate StrLess(a: string, b: string)
  {
    b != [] && (a == [] || a[0] < b[0] || (a[0] == b[0] && StrLess(a[1..], b[1..])))
  }

  lemma {:induction false} StrLessIrreflexive(a: string)
    ensures !StrLess(a, a)
  {
    if a != [] {
      StrLessIrreflexive(a[1..]);
    }
  }

  lemma {:induction false} StrLessTransitive(a: string, b: string, c: string)
    requires StrLess(a, b) && StrLess(b, c)
    ensures StrLess(a, c)
  {
    if a != [] && a[0] == b[0] && b[0] == c[0] {
      StrLessTransitive(a[1..], b[1..], c[1..]);
    }
  }

  /** Two different strings are ordered one way or the other, never both. */
  lemma {:induction false} StrLessTotal(a: string, b: string)
    ensures a != b ==> StrLess(a, b) || StrLess(b, a)
    ensures !(StrLess(a, b) && StrLess(b, a))
  {
    if a != [] && b != [] && a[0] == b[0] {
      StrLessTotal(a[1..], b[1..]);
      if a[1..] == b[1..] {
        assert a == [a[0]] + a[1..] && b == [b[0]] + b[1..];
      }
    }
  }

  /** Comparing two strings whose first parts have equal length compares
      the first parts, then the rest. */
  lemma {:induction false} StrLessConcat(a1: string, b1: string, a2: string, b2: string)
    requires |a1| == |a2|
    ensures StrLess(a1 + b1, a2 + b2) <==> StrLess(a1, a2) || (a1 == a2 && StrLess(b1, b2))
  {
    if a1 == [] {
      assert a1 + b1 == b1 && a2 + b2 == b2;
    } else {
      StrLessConcat(a1[1..], b1, a2[1..], b2);
      assert (a1 + b1)[1..] == a1[1..] + b1;
      assert (a2 + b2)[1..] == a2[1..] + b2;
      assert a1 == a2 <==> a1[0] == a2[0] && a1[1..] == a2[1..] by {
        if a1[0] == a2[0] && a1[1..] == a2[1..] {
          assert a1 == [a1[0]] + a1[1..] && a2 == [a2[0]] + a2[1..];
        }
      }
    }
  }

  /** For digit strings of equal length, string order is numeric order. */
  lemma {:induction false} DigitsOrder(a: nat, b: nat)
    requires |Digits(a)| == |Digits(b)|
    ensures StrLess(Digits(a), Digits(b)) <==> a < b
  {
    if a >= 10 {
      DigitsOrder(a / 10, b / 10);
      DigitsInjective(a / 10, b / 10);
      StrLessConcat(Digits(a / 10), [DigitChar(a % 10)], Digits(b / 10), [DigitChar(b % 10)]);
    }
  }
}
