/** Python string operations used by the paper database, on `seq<char>`. */
module Strings {

  /** `p` is a prefix of `s`. */
  predicate IsPrefix(p: string, s: string) {
    |p| <= |s| && s[..|p|] == p
  }

  /** Python's `p in s`: `p` occurs in `s` as a contiguous block (the empty string always does). */
  predicate Contains(s: string, p: string)
    decreases |s|
  {
    IsPrefix(p, s) || (|s| > 0 && Contains(s[1..], p))
  }

  /** Every character of a pattern found in `s` is a character of `s`. */
  lemma {:induction false} ContainsChar(s: string, p: string, k: nat)
    requires Contains(s, p) && k < |p|
    ensures p[k] in s
    decreases |s|
  {
    if IsPrefix(p, s) {
      assert s[k] == p[k];
    } else {
      ContainsChar(s[1..], p, k);
    }
  }

  /** Python's `s.replace(pat, rep)`: every non-overlapping occurrence, scanning left to right. */
  function Replace(s: string, pat: string, rep: string): string
    requires |pat| > 0
    decreases |s|
  {
    if IsPrefix(pat, s) then rep + Replace(s[|pat|..], pat, rep)
    else if |s| == 0 then ""
    else [s[0]] + Replace(s[1..], pat, rep)
  }

  /** A string in which the pattern does not occur is left as it is. */
  lemma {:induction false} ReplaceAbsent(s: string, pat: string, rep: string)
    requires |pat| > 0 && !Contains(s, pat)
    ensures Replace(s, pat, rep) == s
    decreases |s|
  {
    if |s| > 0 {
      ReplaceAbsent(s[1..], pat, rep);
      assert [s[0]] + s[1..] == s;
    }
  }

  /** A prefix none of whose characters can start the pattern is copied unchanged. */
  lemma {:induction false} ReplaceSkip(a: string, x: string, pat: string, rep: string)
    requires |pat| > 0 && pat[0] !in a
    ensures Replace(a + x, pat, rep) == a + Replace(x, pat, rep)
    decreases |a|
  {
    if |a| > 0 {
      assert (a + x)[0] == a[0];
      assert a[0] in a;
      assert (a + x)[1..] == a[1..] + x;
      ReplaceSkip(a[1..], x, pat, rep);
      assert Replace(a + x, pat, rep) == [a[0]] + Replace((a + x)[1..], pat, rep);
      assert [a[0]] + (a[1..] + Replace(x, pat, rep)) == a + Replace(x, pat, rep);
    } else {
      assert a + x == x;
    }
  }

  /** An occurrence at the front is replaced and the scan resumes after it. */
  lemma ReplaceFront(x: string, pat: string, rep: string)
    requires |pat| > 0
    ensures Replace(pat + x, pat, rep) == rep + Replace(x, pat, rep)
  {
    assert (pat + x)[..|pat|] == pat;
    assert (pat + x)[|pat|..] == x;
  }

  /**
   * The first occurrence is replaced and the scan resumes after it: when no occurrence
   * starts inside `a`, the text `a + pat + x` becomes `a + rep` followed by `x` replaced.
   */
  lemma {:induction false} ReplaceFirst(a: string, x: string, pat: string, rep: string)
    requires |pat| > 0
    requires forall j :: 0 <= j < |a| ==> !IsPrefix(pat, (a + pat + x)[j..])
    ensures Replace(a + pat + x, pat, rep) == a + rep + Replace(x, pat, rep)
    decreases |a|
  {
    var s := a + pat + x;
    if |a| == 0 {
      assert s == pat + x;
      ReplaceFront(x, pat, rep);
    } else {
      assert !IsPrefix(pat, s[0..]);
      assert s[0..] == s;
      assert s[1..] == a[1..] + pat + x;
      forall j | 0 <= j < |a[1..]| ensures !IsPrefix(pat, (a[1..] + pat + x)[j..]) {
        assert (a[1..] + pat + x)[j..] == s[j + 1..];
      }
      ReplaceFirst(a[1..], x, pat, rep);
      assert [a[0]] + (a[1..] + rep + Replace(x, pat, rep)) == a + rep + Replace(x, pat, rep);
    }
  }

  /** Python's `s.replace(a, b)` for one-character arguments. */
  function ReplaceChar(s: string, a: char, b: char): (r: string)
    ensures |r| == |s|
  {
    seq(|s|, i requires 0 <= i < |s| => if s[i] == a then b else s[i])
  }

  /** The character-wise form agrees with the general `Replace`. */
  lemma {:induction false} ReplaceCharIsReplace(s: string, a: char, b: char)
    ensures Replace(s, [a], [b]) == ReplaceChar(s, a, b)
    decreases |s|
  {
    if |s| > 0 {
      ReplaceCharIsReplace(s[1..], a, b);
      assert ReplaceChar(s, a, b) == [if s[0] == a then b else s[0]] + ReplaceChar(s[1..], a, b);
    }
  }

  /** `s` with every occurrence of `c` deleted. */
  function DeleteChar(s: string, c: char): (r: string)
    ensures c !in r
    decreases |s|
  {
    if |s| == 0 then ""
    else if s[0] == c then DeleteChar(s[1..], c)
    else [s[0]] + DeleteChar(s[1..], c)
  }

  /** Python's `s.split(c)` for a one-character separator. */
  function Split(s: string, c: char): (r: seq<string>)
    ensures |r| >= 1
    decreases |s|
  {
    if |s| == 0 then [""]
    else
      var rest := Split(s[1..], c);
      if s[0] == c then [""] + rest
      else [[s[0]] + rest[0]] + rest[1..]
  }

  /** Python's `sep.join(parts)`. */
  function Join(sep: string, parts: seq<string>): string
    decreases |parts|
  {
    if |parts| == 0 then ""
    else if |parts| == 1 then parts[0]
    else parts[0] + sep + Join(sep, parts[1..])
  }

  /** No piece of a split contains the separator. */
  lemma {:induction false} SplitPieces(s: string, c: char)
    ensures forall k :: 0 <= k < |Split(s, c)| ==> c !in Split(s, c)[k]
    decreases |s|
  {
    if |s| > 0 {
      SplitPieces(s[1..], c);
    }
  }

  /** A string without the separator splits into itself. */
  lemma {:induction false} SplitNoSep(s: string, c: char)
    requires c !in s
    ensures Split(s, c) == [s]
    decreases |s|
  {
    if |s| > 0 {
      SplitNoSep(s[1..], c);
      assert [s[0]] + s[1..] == s;
    }
  }

  /** Splitting distributes over a separator occurrence. */
  lemma {:induction false} SplitConcat(a: string, b: string, c: char)
    ensures Split(a + [c] + b, c) == Split(a, c) + Split(b, c)
    decreases |a|
  {
    if |a| == 0 {
      assert a + [c] + b == [c] + b;
      assert ([c] + b)[1..] == b;
    } else {
      assert (a + [c] + b)[0] == a[0];
      assert (a + [c] + b)[1..] == a[1..] + [c] + b;
      SplitConcat(a[1..], b, c);
    }
  }

  /** Joining the pieces of a split with the separator gives the string back. */
  lemma {:induction false} JoinSplit(s: string, c: char)
    ensures Join([c], Split(s, c)) == s
    decreases |s|
  {
    if |s| > 0 {
      var rest := Split(s[1..], c);
      JoinSplit(s[1..], c);
      if s[0] == c {
        assert [c] + Join([c], rest) == s;
      } else {
        var r := [[s[0]] + rest[0]] + rest[1..];
        if |rest| == 1 {
          assert Join([c], r) == [s[0]] + rest[0];
        } else {
          assert r[1..] == rest[1..];
          assert Join([c], rest) == rest[0] + [c] + Join([c], rest[1..]);
          assert Join([c], r) == [s[0]] + rest[0] + [c] + Join([c], rest[1..]);
        }
        assert [s[0]] + s[1..] == s;
      }
    }
  }

  /** Splitting a join of separator-free pieces gives the pieces back. */
  lemma {:induction false} SplitJoin(parts: seq<string>, c: char)
    requires |parts| >= 1
    requires forall k :: 0 <= k < |parts| ==> c !in parts[k]
    ensures Split(Join([c], parts), c) == parts
    decreases |parts|
  {
    if |parts| == 1 {
      SplitNoSep(parts[0], c);
    } else {
      SplitJoin(parts[1..], c);
      SplitConcat(parts[0], Join([c], parts[1..]), c);
      SplitNoSep(parts[0], c);
      assert [parts[0]] + parts[1..] == parts;
    }
  }

  /** Joining with the empty separator deletes the separator from the string. */
  lemma {:induction false} JoinEmptySplit(s: string, c: char)
    ensures Join("", Split(s, c)) == DeleteChar(s, c)
    decreases |s|
  {
    if |s| > 0 {
      var rest := Split(s[1..], c);
      JoinEmptySplit(s[1..], c);
      if s[0] == c {
        assert Join("", [""] + rest) == "" + "" + Join("", rest);
      } else {
        var r := [[s[0]] + rest[0]] + rest[1..];
        if |rest| > 1 {
          assert r[1..] == rest[1..];
          assert Join("", rest) == rest[0] + "" + Join("", rest[1..]);
        }
      }
    }
  }

  /** Python's `parts[-1]`. */
  function Last<T>(parts: seq<T>): T
    requires |parts| > 0
  {
    parts[|parts| - 1]
  }

  /** Python's slice normalisation of one bound against length `n`. */
  function Clamp(i: int, n: nat): (r: nat)
    ensures r <= n
  {
    if i < 0 then (if i + n < 0 then 0 else i + n) else if i > n then n else i
  }

  /** Python's `s[start:stop]`, negative bounds counting from the end. */
  function PySlice(s: string, start: int, stop: int): (r: string)
  {
    var a, b := Clamp(start, |s|), Clamp(stop, |s|);
    if a < b then s[a..b] else ""
  }

  /** `s[31:-1]` drops the first 31 characters and the last one. */
  lemma PySliceUri(s: string)
    ensures |s| <= 32 ==> PySlice(s, 31, -1) == ""
    ensures |s| > 32 ==> PySlice(s, 31, -1) == s[31..|s| - 1]
  {
  }

  /** Python's `s.lower()` restricted to ASCII letters. */
  function Lower(s: string): (r: string)
    ensures |r| == |s|
  {
    seq(|s|, i requires 0 <= i < |s| => if 'A' <= s[i] <= 'Z' then (s[i] as int + 32) as char else s[i])
  }

  /** The text before the first occurrence of `sep` (Python's `s.split(sep)[0]`). */
  function BeforeFirst(s: string, sep: string): (r: string)
    requires |sep| > 0
    decreases |s|
  {
    if IsPrefix(sep, s) then ""
    else if |s| == 0 then ""
    else [s[0]] + BeforeFirst(s[1..], sep)
  }

  /** The text before the first separator is a prefix of `s` in which the separator does not occur. */
  lemma {:induction false} BeforeFirstPrefix(s: string, sep: string)
    requires |sep| > 0
    ensures IsPrefix(BeforeFirst(s, sep), s)
    ensures !Contains(BeforeFirst(s, sep), sep)
    ensures !Contains(s, sep) ==> BeforeFirst(s, sep) == s
    decreases |s|
  {
    if !IsPrefix(sep, s) && |s| > 0 {
      BeforeFirstPrefix(s[1..], sep);
      var r := BeforeFirst(s[1..], sep);
      assert ([s[0]] + r)[1..] == r;
      assert [s[0]] + s[1..] == s;
    }
  }

  /** Python's lexicographic string order `a <= b` (by code point). */
  predicate StrLe(a: string, b: string)
    decreases |a|
  {
    if |a| == 0 then true
    else if |b| == 0 then false
    else if a[0] != b[0] then a[0] < b[0]
    else StrLe(a[1..], b[1..])
  }

  lemma {:induction false} StrLeTotal(a: string, b: string)
    ensures StrLe(a, b) || StrLe(b, a)
    decreases |a|
  {
    if |a| > 0 && |b| > 0 && a[0] == b[0] {
      StrLeTotal(a[1..], b[1..]);
    }
  }

  lemma {:induction false} StrLeTrans(a: string, b: string, c: string)
    requires StrLe(a, b) && StrLe(b, c)
    ensures StrLe(a, c)
    decreases |a|
  {
    if |a| > 0 && |b| > 0 && |c| > 0 && a[0] == b[0] && b[0] == c[0] {
      StrLeTrans(a[1..], b[1..], c[1..]);
    }
  }

  lemma {:induction false} StrLeAntisym(a: string, b: string)
    requires StrLe(a, b) && StrLe(b, a)
    ensures a == b
    decreases |a|
  {
    if |a| > 0 {
      StrLeAntisym(a[1..], b[1..]);
      assert a == [a[0]] + a[1..] && b == [b[0]] + b[1..];
    }
  }

  predicate IsDigit(ch: char) {
    '0' <= ch <= '9'
  }

  function DigitChar(d: nat): char
    requires d < 10
  {
    ('0' as int + d) as char
  }

  /** Decimal notation of a natural number, most significant digit first. */
  function NatToStr(n: nat): (r: string)
    ensures |r| > 0
    ensures forall k :: 0 <= k < |r| ==> IsDigit(r[k])
  {
    if n < 10 then [DigitChar(n)] else NatToStr(n / 10) + [DigitChar(n % 10)]
  }

  /** Python's `str(i)` on an int. */
  function IntToStr(i: int): string {
    if i < 0 then "-" + NatToStr(-i) else NatToStr(i)
  }

  /** The value of a non-empty string of decimal digits. */
  function DigitsValue(s: string): nat
    requires forall k :: 0 <= k < |s| ==> IsDigit(s[k])
    decreases |s|
  {
    if |s| == 0 then 0
    else
      assert IsDigit(s[|s| - 1]);
      var d: nat := s[|s| - 1] as int - '0' as int;
      DigitsValue(s[..|s| - 1]) * 10 + d
  }

  predicate AllDigits(s: string) {
    |s| > 0 && forall k :: 0 <= k < |s| ==> IsDigit(s[k])
  }

  /** Python's `int(s)` for an optional sign followed by decimal digits; `None` is a ValueError. */
  function ParseInt(s: string): (r: Option<int>)
  {
    if |s| > 0 && (s[0] == '-' || s[0] == '+') then
      (if AllDigits(s[1..]) then
         var v: int := DigitsValue(s[1..]);
         Some(if s[0] == '-' then -v else v)
       else None)
    else if AllDigits(s) then Some(DigitsValue(s))
    else None
  }

  datatype Option<T> = None | Some(value: T)

  lemma {:induction false} DigitsOfNat(n: nat)
    ensures DigitsValue(NatToStr(n)) == n
  {
    if n >= 10 {
      DigitsOfNat(n / 10);
      var s := NatToStr(n);
      assert s[..|s| - 1] == NatToStr(n / 10);
    }
  }

  /** `int(str(i)) == i`: parsing inverts the decimal rendering. */
  lemma ParseIntToStr(i: int)
    ensures ParseInt(IntToStr(i)) == Some(i)
  {
    if i < 0 {
      var t := NatToStr(-i);
      DigitsOfNat(-i);
      assert AllDigits(t);
      assert ("-" + t)[0] == '-';
      assert ("-" + t)[1..] == t;
    } else {
      var t := NatToStr(i);
      DigitsOfNat(i);
      assert AllDigits(t);
      assert IsDigit(t[0]);
    }
  }
}
