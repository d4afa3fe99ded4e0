/**
  The string primitives the pipeline relies on, with Python's meaning:
  `in` on strings, `str.find`, slicing with a negative start, `str.replace` of
  one character, `str.strip()` emptiness, `str.ljust`, zero-padded decimal
  fields, and the code-point lexicographic order that both Python and SQLite
  (BINARY collation over UTF-8) use to compare text.
 */
module Text {
  import Seqs

  /** Characters for which Python's `str.isspace()` holds (also what `\s` matches in `re`). */
  predicate IsSpace(c: char)
  {
    || ('\t' <= c <= '\r')
    || ('\U{1C}' <= c <= '\U{1F}')
    || c == ' ' || c == '\U{85}' || c == '\U{A0}' || c == '\U{1680}'
    || ('\U{2000}' <= c <= '\U{200A}')
    || c == '\U{2028}' || c == '\U{2029}' || c == '\U{202F}' || c == '\U{205F}' || c == '\U{3000}'
  }

  /** `not s.strip()`: the string is empty once surrounding whitespace is removed. */
  predicate IsBlank(s: string)
  {
    forall i :: 0 <= i < |s| ==> IsSpace(s[i])
  }

  predicate IsDigit(c: char)
  {
    '0' <= c <= '9'
  }

  predicate AllDigits(s: string)
  {
    forall i :: 0 <= i < |s| ==> IsDigit(s[i])
  }

  predicate OccursAt(s: string, pat: string, j: int)
  {
    0 <= j && j + |pat| <= |s| && s[j..j + |pat|] == pat
  }

  /** Python's `pat in s` for strings. */
  predicate Contains(s: string, pat: string)
  {
    exists j | 0 <= j <= |s| - |pat| :: OccursAt(s, pat, j)
  }

  /** A text that lacks the first character of a non-empty pattern does not contain it. */
  lemma AbsentFirst(s: string, pat: string)
    requires |pat| > 0 && pat[0] !in s
    ensures !Contains(s, pat)
  {
    forall j | 0 <= j <= |s| - |pat|
      ensures !OccursAt(s, pat, j)
    {
      assert s[j..j + |pat|][0] == s[j];
    }
  }

  /** A one-character pattern occurs exactly when its character does. */
  lemma ContainsChar(s: string, c: char)
    ensures Contains(s, [c]) <==> c in s
  {
    if c in s {
      var j :| 0 <= j < |s| && s[j] == c;
      assert s[j..j + 1] == [c];
      assert OccursAt(s, [c], j);
    }
    if Contains(s, [c]) {
      var j :| 0 <= j <= |s| - 1 && OccursAt(s, [c], j);
      assert s[j..j + 1][0] == s[j];
    }
  }

  function FindFrom(s: string, pat: string, i: nat): (r: int)
    decreases |s| - i
    ensures r == -1 || (i <= r && OccursAt(s, pat, r))
    ensures r == -1 ==> forall j :: i <= j ==> !OccursAt(s, pat, j)
    ensures r != -1 ==> forall j :: i <= j < r ==> !OccursAt(s, pat, j)
  {
    if i + |pat| > |s| then -1
    else if s[i..i + |pat|] == pat then i
    else FindFrom(s, pat, i + 1)
  }

  /** Python's `s.find(pat)`: the first index at which `pat` occurs, or -1. */
  function Find(s: string, pat: string): (r: int)
    ensures r == -1 <==> !Contains(s, pat)
    ensures r != -1 ==> OccursAt(s, pat, r) && forall j :: 0 <= j < r ==> !OccursAt(s, pat, j)
  {
    FindFrom(s, pat, 0)
  }

  function Except(c: char): char -> bool
  {
    (x: char) => x != c
  }

  /**
    Python's `s.replace(c, "")` for a one-character `c`. The clause for one-character texts,
    with `RemoveAllConcat`, fixes the result character by character, order included.
   */
  function RemoveAll(s: string, c: char): (r: string)
    ensures c !in r
    ensures forall x :: x != c ==> multiset(r)[x] == multiset(s)[x]
    ensures c !in s ==> r == s
    ensures |s| == 1 ==> r == if s[0] == c then [] else s
  {
    if c in s then Seqs.Keep(s, Except(c))
    else
      Seqs.KeepAll(s, Except(c));
      Seqs.Keep(s, Except(c))
  }

  /** Removal distributes over concatenation, so the kept characters stay in order. */
  lemma RemoveAllConcat(a: string, b: string, c: char)
    ensures RemoveAll(a + b, c) == RemoveAll(a, c) + RemoveAll(b, c)
  {
    Seqs.KeepConcat(a, b, Except(c));
  }

  /** Removing the one occurrence of `c` joins the text around it. */
  lemma RemoveAllOne(a: string, b: string, c: char)
    requires c !in a && c !in b
    ensures RemoveAll(a + [c] + b, c) == a + b
  {
    Seqs.KeepDropsOne(a, c, b, Except(c));
  }

  /** Python's `"".join(ls)`. */
  function Join(ls: seq<string>): string
  {
    if |ls| == 0 then "" else ls[0] + Join(ls[1..])
  }

  /** Joining two lists is joining each and putting the results one after the other. */
  lemma {:induction false} JoinConcat(a: seq<string>, b: seq<string>)
    ensures Join(a + b) == Join(a) + Join(b)
  {
    if |a| == 0 {
      assert a + b == b;
    } else {
      assert (a + b)[0] == a[0];
      assert (a + b)[1..] == a[1..] + b;
      JoinConcat(a[1..], b);
    }
  }

  /** Python's `s[:n]`. */
  function Take(s: string, n: nat): string
  {
    if n <= |s| then s[..n] else s
  }

  /** Python's normalisation of a slice bound against a length `n`. */
  function SliceBound(i: int, n: nat): (b: nat)
    ensures b <= n
  {
    if i < 0 then (if i + n < 0 then 0 else i + n)
    else if i > n then n
    else i
  }

  /** Python's `s[start:stop]`: negative bounds count from the end, then both are clamped. */
  function PySlice(s: string, start: int, stop: int): string
  {
    var lo := SliceBound(start, |s|);
    var hi := SliceBound(stop, |s|);
    if lo < hi then s[lo..hi] else []
  }

  /** Python's `s.ljust(width)`: right-padded with spaces, never truncated. */
  function Ljust(s: string, width: nat): (r: string)
    ensures |r| == if |s| >= width then |s| else width
    ensures r[..|s|] == s
    ensures forall i :: |s| <= i < |r| ==> r[i] == ' '
  {
    if |s| >= width then s else s + seq(width - |s|, _ => ' ')
  }

  function DigitChar(d: nat): (c: char)
    requires d < 10
    ensures IsDigit(c)
  {
    ('0' as int + d) as char
  }

  function DigitValue(c: char): (d: nat)
    requires IsDigit(c)
    ensures d < 10
  {
    (c as int - '0' as int) as nat
  }

  function Pow10(w: nat): (p: nat)
    ensures p >= 1
  {
    if w == 0 then 1 else 10 * Pow10(w - 1)
  }

  /** The last `w` decimal digits of `n`, zero-padded (`%02d`, `%04d`). */
  function Pad(n: nat, w: nat): (r: string)
    ensures |r| == w
    ensures AllDigits(r)
  {
    if w == 0 then "" else Pad(n / 10, w - 1) + [DigitChar(n % 10)]
  }

  /** The decimal value of a string of ASCII digits (Python's `int`). */
  function ValueOf(s: string): nat
    requires AllDigits(s)
  {
    if |s| == 0 then 0 else 10 * ValueOf(s[..|s| - 1]) + DigitValue(s[|s| - 1])
  }

  lemma {:induction false} ValueOfBound(s: string)
    requires AllDigits(s)
    ensures ValueOf(s) < Pow10(|s|)
  {
    if |s| > 0 {
      ValueOfBound(s[..|s| - 1]);
    }
  }

  /** The number of leading ASCII digits of `s`. */
  function DigitPrefixLen(s: string): (k: nat)
    ensures k <= |s|
    ensures AllDigits(s[..k])
    ensures k < |s| ==> !IsDigit(s[k])
  {
    if |s| == 0 || !IsDigit(s[0]) then 0
    else
      var k := 1 + DigitPrefixLen(s[1..]);
      assert s[..k] == [s[0]] + s[1..][..k - 1];
      k
  }

  /** Code-point lexicographic order, as Python `<` on `str` and SQLite `<` on TEXT. */
  predicate LexLess(a: string, b: string)
  {
    if |a| == 0 then |b| > 0
    else if |b| == 0 then false
    else if a[0] != b[0] then a[0] < b[0]
    else LexLess(a[1..], b[1..])
  }

  lemma {:induction false} LexLessIrreflexive(a: string)
    ensures !LexLess(a, a)
  {
    if |a| > 0 {
      LexLessIrreflexive(a[1..]);
    }
  }

  /** Code-point text order is a strict total order: two different texts compare one way only. */
  lemma {:induction false} LexLessTotal(a: string, b: string)
    ensures a != b ==> LexLess(a, b) || LexLess(b, a)
    ensures !(LexLess(a, b) && LexLess(b, a))
  {
    if |a| > 0 && |b| > 0 && a[0] == b[0] {
      LexLessTotal(a[1..], b[1..]);
      if a != b {
        assert a == [a[0]] + a[1..] && b == [b[0]] + b[1..];
      }
    }
  }

  /** Comparing two strings that start with prefixes of equal length: the prefixes decide unless they are equal. */
  lemma {:induction false} LexLessConcat(x: string, y: string, u: string, v: string)
    requires |x| == |y|
    ensures LexLess(x + u, y + v) == if x == y then LexLess(u, v) else LexLess(x, y)
  {
    if |x| == 0 {
      assert x + u == u && y + v == v;
    } else {
      assert (x + u)[0] == x[0] && (y + v)[0] == y[0];
      assert (x + u)[1..] == x[1..] + u && (y + v)[1..] == y[1..] + v;
      if x[0] == y[0] {
        LexLessConcat(x[1..], y[1..], u, v);
        assert x == y <==> x[1..] == y[1..] by {
          assert x == [x[0]] + x[1..] && y == [y[0]] + y[1..];
        }
      }
    }
  }

  /** Zero-padding to a fixed width is undone by reading the digits back. */
  lemma {:induction false} PadValue(n: nat, w: nat)
    requires n < Pow10(w)
    ensures ValueOf(Pad(n, w)) == n
  {
    if w > 0 {
      var p := Pad(n, w);
      assert p[..|p| - 1] == Pad(n / 10, w - 1);
      PadValue(n / 10, w - 1);
      assert DigitValue(p[|p| - 1]) == n % 10;
    }
  }

  /** One-digit texts compare as their digits. */
  lemma DigitOrder(a: nat, b: nat)
    requires a < 10 && b < 10
    ensures LexLess([DigitChar(a)], [DigitChar(b)]) <==> a < b
  {
    assert [DigitChar(a)][1..] == [] && [DigitChar(b)][1..] == [];
    LexLessIrreflexive([]);
  }

  /** For numbers of at most `w` digits, comparing the zero-padded text is comparing the numbers. */
  lemma {:induction false} PadLexOrder(n: nat, m: nat, w: nat)
    requires n < Pow10(w) && m < Pow10(w)
    ensures LexLess(Pad(n, w), Pad(m, w)) <==> n < m
  {
    if w == 0 {
    } else {
      var dn, dm := DigitChar(n % 10), DigitChar(m % 10);
      LexLessConcat(Pad(n / 10, w - 1), Pad(m / 10, w - 1), [dn], [dm]);
      PadLexOrder(n / 10, m / 10, w - 1);
      PadValue(n / 10, w - 1);
      PadValue(m / 10, w - 1);
      assert Pad(n / 10, w - 1) == Pad(m / 10, w - 1) <==> n / 10 == m / 10;
      DigitOrder(n % 10, m % 10);
      assert n == 10 * (n / 10) + n % 10 && m == 10 * (m / 10) + m % 10;
    }
  }
}
