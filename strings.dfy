/**
 * Text operations with the semantics of the JavaScript built-ins the form, the
 * list and the CSV export rely on: `String.prototype.split` with a
 * one-character separator, `Array.prototype.join`, `replace` with a negated
 * character class, `replace` of the first occurrence, `padStart`, and the
 * decimal digits of a number.
 */
module Strings {

  predicate IsDigit(c: char) { '0' <= c <= '9' }

  predicate AllDigits(s: string) { forall i :: 0 <= i < |s| ==> IsDigit(s[i]) }

  /** The characters of `s` for which `keep` holds, in order. */
  function Keep(s: string, keep: char -> bool): (r: string)
    ensures |r| <= |s|
    ensures forall i :: 0 <= i < |r| ==> keep(r[i])
    ensures (forall i :: 0 <= i < |s| ==> keep(s[i])) ==> r == s
  {
    if |s| == 0 then "" else (if keep(s[0]) then [s[0]] else "") + Keep(s[1..], keep)
  }

  /** A character the filter keeps is in its result exactly when it is in its input. */
  lemma {:induction false} KeepKeeps(s: string, keep: char -> bool, c: char)
    requires keep(c)
    ensures c in Keep(s, keep) <==> c in s
  {
    if |s| > 0 {
      KeepKeeps(s[1..], keep, c);
      assert s == [s[0]] + s[1..];
    }
  }

  /** Number of occurrences of `c` in `s`. */
  function Count(s: string, c: char): (n: nat)
    ensures n <= |s|
    ensures n == 0 <==> c !in s
  {
    if |s| == 0 then 0 else (if s[0] == c then 1 else 0) + Count(s[1..], c)
  }

  /** `s` with every `c` deleted. */
  function Without(s: string, c: char): (r: string)
    ensures c !in r
    ensures |r| == |s| - Count(s, c)
    ensures c !in s ==> r == s
  {
    if |s| == 0 then "" else (if s[0] == c then "" else [s[0]]) + Without(s[1..], c)
  }

  /** `s.split(sep)`: the maximal separator-free pieces; never an empty list. */
  function Split(s: string, sep: char): (parts: seq<string>)
    ensures |parts| >= 1
    ensures forall i :: 0 <= i < |parts| ==> sep !in parts[i]
  {
    if |s| == 0 then [""]
    else
      var rest := Split(s[1..], sep);
      if s[0] == sep then [""] + rest
      else [[s[0]] + rest[0]] + rest[1..]
  }

  /** `parts.join(sep)`. */
  function Join(parts: seq<string>, sep: string): string
  {
    if |parts| == 0 then ""
    else if |parts| == 1 then parts[0]
    else parts[0] + sep + Join(parts[1..], sep)
  }

  /** `s.replace(from, to)` with a one-character pattern: only the first occurrence changes. */
  function ReplaceFirst(s: string, from: char, to: char): (r: string)
    ensures |r| == |s|
  {
    if |s| == 0 then ""
    else if s[0] == from then [to] + s[1..]
    else [s[0]] + ReplaceFirst(s[1..], from, to)
  }

  function Repeat(c: char, k: nat): (r: string)
    ensures |r| == k
    ensures forall i :: 0 <= i < k ==> r[i] == c
  {
    if k == 0 then "" else [c] + Repeat(c, k - 1)
  }

  /** `s.padStart(n, c)`. */
  function PadStart(s: string, n: nat, c: char): (r: string)
    ensures |r| == if |s| >= n then |s| else n
    ensures r[|r| - |s|..] == s
    ensures forall i :: 0 <= i < |r| - |s| ==> r[i] == c
  {
    if |s| >= n then s else Repeat(c, n - |s|) + s
  }

  function DigitChar(d: nat): (c: char)
    requires d < 10
    ensures IsDigit(c)
  {
    ('0' as int + d) as char
  }

  function DigitValue(c: char): (d: nat)
    requires IsDigit(c)
    ensures d < 10
  {
    c as int - '0' as int
  }

  /** The decimal numeral of `n`, without leading zeros. */
  function NatToString(n: nat): (s: string)
    ensures |s| >= 1 && AllDigits(s)
    decreases n
  {
    if n < 10 then [DigitChar(n)] else NatToString(n / 10) + [DigitChar(n % 10)]
  }

  /** The value of a decimal numeral; the empty numeral is 0. */
  function DigitsValue(s: string): nat
    requires AllDigits(s)
  {
    if |s| == 0 then 0 else DigitsValue(s[..|s| - 1]) * 10 + DigitValue(s[|s| - 1])
  }

  /** The longest prefix of `s` made of digits. */
  function DigitPrefix(s: string): (p: string)
    ensures AllDigits(p) && p <= s
    ensures |p| < |s| ==> !IsDigit(s[|p|])
  {
    if |s| == 0 || !IsDigit(s[0]) then "" else [s[0]] + DigitPrefix(s[1..])
  }

  // ---------------------------------------------------------------------------
  // split / join

  lemma {:induction false} SplitCount(s: string, c: char)
    ensures |Split(s, c)| == Count(s, c) + 1
  {
    if |s| > 0 { SplitCount(s[1..], c); }
  }

  /** Joining the pieces with the separator gives the text back. */
  lemma {:induction false} JoinSplit(s: string, c: char)
    ensures Join(Split(s, c), [c]) == s
  {
    if |s| > 0 {
      var rest := Split(s[1..], c);
      JoinSplit(s[1..], c);
      if s[0] == c {
        JoinEmptyHead(rest, [c]);
      } else {
        JoinPrepend([s[0]], rest, [c]);
      }
      assert s == [s[0]] + s[1..];
    }
  }

  /** Joining the pieces with nothing between them deletes the separators. */
  lemma {:induction false} JoinSplitEmpty(s: string, c: char)
    ensures Join(Split(s, c), "") == Without(s, c)
  {
    if |s| > 0 {
      var rest := Split(s[1..], c);
      JoinSplitEmpty(s[1..], c);
      if s[0] == c {
        JoinEmptyHead(rest, "");
      } else {
        JoinPrepend([s[0]], rest, "");
      }
    }
  }

  /** An empty first piece contributes just the separator. */
  lemma JoinEmptyHead(rest: seq<string>, sep: string)
    requires |rest| >= 1
    ensures Join([""] + rest, sep) == sep + Join(rest, sep)
  {
    assert ([""] + rest)[1..] == rest;
  }

  /** Text put before the first piece comes out before the whole join. */
  lemma JoinPrepend(x: string, rest: seq<string>, sep: string)
    requires |rest| >= 1
    ensures Join([x + rest[0]] + rest[1..], sep) == x + Join(rest, sep)
  {
    var parts := [x + rest[0]] + rest[1..];
    if |rest| > 1 {
      assert parts[1..] == rest[1..];
      assert (x + rest[0]) + sep + Join(rest[1..], sep) == x + (rest[0] + sep + Join(rest[1..], sep));
    }
  }

  lemma {:induction false} SplitNoSeparator(a: string, c: char)
    requires c !in a
    ensures Split(a, c) == [a]
  {
    if |a| > 0 {
      SplitNoSeparator(a[1..], c);
      assert [a[0]] + a[1..] == a;
    }
  }

  /** A separator-free head followed by a separator splits off as the first piece. */
  lemma {:induction false} SplitAfter(a: string, b: string, c: char)
    requires c !in a
    ensures Split(a + [c] + b, c) == [a] + Split(b, c)
  {
    if |a| == 0 {
      assert a + [c] + b == [c] + b;
      assert ([c] + b)[1..] == b;
    } else {
      assert (a + [c] + b)[1..] == a[1..] + [c] + b;
      SplitAfter(a[1..], b, c);
      assert [a[0]] + a[1..] == a;
    }
  }

  /** Three separator-free pieces joined by the separator split back into those pieces. */
  lemma SplitThree(a: string, b: string, d: string, sep: string, c: char)
    requires sep == [c]
    requires c !in a && c !in b && c !in d
    ensures Split(a + sep + b + sep + d, c) == [a, b, d]
  {
    var bd := b + [c] + d;
    Regroup(a, b, d, c);
    SplitAfter(a, bd, c);
    SplitAfter(b, d, c);
    SplitNoSeparator(d, c);
  }

  lemma Regroup(a: string, b: string, d: string, c: char)
    ensures a + [c] + b + [c] + d == a + [c] + (b + [c] + d)
  {
  }

  /** Splitting a join of separator-free pieces gives the pieces back. */
  lemma {:induction false} SplitJoin(parts: seq<string>, c: char)
    requires |parts| >= 1
    requires forall i :: 0 <= i < |parts| ==> c !in parts[i]
    ensures Split(Join(parts, [c]), c) == parts
  {
    if |parts| == 1 {
      SplitNoSeparator(parts[0], c);
    } else {
      SplitJoin(parts[1..], c);
      SplitAfter(parts[0], Join(parts[1..], [c]), c);
      assert [parts[0]] + parts[1..] == parts;
    }
  }

  /** Every piece of a split keeps only characters of the text other than the separator. */
  lemma {:induction false} SplitPartsWithin(s: string, c: char, p: char -> bool)
    requires forall i :: 0 <= i < |s| ==> p(s[i]) || s[i] == c
    ensures forall k, i :: 0 <= k < |Split(s, c)| && 0 <= i < |Split(s, c)[k]| ==> p(Split(s, c)[k][i])
  {
    if |s| > 0 {
      SplitPartsWithin(s[1..], c, p);
    }
  }

  lemma {:induction false} JoinWithin(parts: seq<string>, sep: string, p: char -> bool)
    requires forall k, i :: 0 <= k < |parts| && 0 <= i < |parts[k]| ==> p(parts[k][i])
    requires forall i :: 0 <= i < |sep| ==> p(sep[i])
    ensures forall i :: 0 <= i < |Join(parts, sep)| ==> p(Join(parts, sep)[i])
  {
    if |parts| > 1 {
      JoinWithin(parts[1..], sep, p);
      var j := Join(parts, sep);
      var tail := Join(parts[1..], sep);
      assert j == parts[0] + sep + tail;
      forall i | 0 <= i < |j| ensures p(j[i]) {
        if i < |parts[0]| {
          assert j[i] == parts[0][i];
        } else if i < |parts[0]| + |sep| {
          assert j[i] == sep[i - |parts[0]|];
        } else {
          assert j[i] == tail[i - |parts[0]| - |sep|];
        }
      }
    }
  }

  lemma {:induction false} CountAppend(a: string, b: string, c: char)
    ensures Count(a + b, c) == Count(a, c) + Count(b, c)
  {
    if |a| > 0 {
      assert (a + b)[1..] == a[1..] + b;
      CountAppend(a[1..], b, c);
    } else {
      assert a + b == b;
    }
  }

  lemma {:induction false} WithoutAppend(a: string, b: string, c: char)
    ensures Without(a + b, c) == Without(a, c) + Without(b, c)
  {
    if |a| > 0 {
      assert (a + b)[1..] == a[1..] + b;
      WithoutAppend(a[1..], b, c);
      var h := if a[0] == c then "" else [a[0]];
      assert Without(a + b, c) == h + (Without(a[1..], c) + Without(b, c));
      assert Without(a, c) == h + Without(a[1..], c);
    } else {
      assert a + b == b;
    }
  }

  /** One separator between two separator-free texts. */
  lemma {:induction false} CountAround(a: string, b: string, c: char)
    requires c !in a && c !in b
    ensures Count(a + [c] + b, c) == 1
  {
    CountAppend(a + [c], b, c);
    CountAppend(a, [c], c);
    assert Count([c], c) == 1 by { assert [c][1..] == ""; }
  }

  lemma {:induction false} WithoutAround(a: string, b: string, c: char)
    requires c !in a && c !in b
    ensures Without(a + [c] + b, c) == a + b
  {
    WithoutAppend(a + [c], b, c);
    WithoutAppend(a, [c], c);
    WithoutSeparator(c);
    assert a + "" == a;
  }

  lemma WithoutSeparator(c: char)
    ensures Without([c], c) == ""
  {
    assert [c][1..] == "";
  }

  /** The separators in all the pieces together. */
  function CountAll(parts: seq<string>, c: char): nat
  {
    if |parts| == 0 then 0 else Count(parts[0], c) + CountAll(parts[1..], c)
  }

  /** Joining with a one-character separator adds one separator between each two pieces. */
  lemma {:induction false} CountJoin(parts: seq<string>, c: char)
    requires |parts| >= 1
    ensures Count(Join(parts, [c]), c) == CountAll(parts, c) + |parts| - 1
  {
    if |parts| > 1 {
      CountJoin(parts[1..], c);
      CountAppend(parts[0] + [c], Join(parts[1..], [c]), c);
      CountAppend(parts[0], [c], c);
      assert Count([c], c) == 1 by { assert [c][1..] == ""; }
    }
  }

  lemma Join2(a: string, b: string, sep: string)
    ensures Join([a, b], sep) == a + sep + b
  {
    assert [a, b][1..] == [b];
  }

  lemma Join3(a: string, b: string, c: string, sep: string)
    ensures Join([a, b, c], sep) == a + sep + b + sep + c
  {
    assert [a, b, c][1..] == [b, c];
    Join2(b, c, sep);
  }

  lemma PrefixDigits(a: string, b: string)
    requires a <= b && AllDigits(b)
    ensures AllDigits(a)
  {
    forall i | 0 <= i < |a| ensures IsDigit(a[i]) { assert a[i] == b[i]; }
  }

  lemma DigitsHaveNo(s: string, c: char)
    requires AllDigits(s) && !IsDigit(c)
    ensures c !in s
  {
    forall i | 0 <= i < |s| ensures s[i] != c { assert IsDigit(s[i]); }
  }

  // ---------------------------------------------------------------------------
  // replace, numerals

  lemma {:induction false} ReplaceFirstAfter(a: string, b: string, from: char, to: char)
    requires from !in a
    ensures ReplaceFirst(a + [from] + b, from, to) == a + [to] + b
  {
    if |a| == 0 {
      assert a + [from] + b == [from] + b;
      assert ([from] + b)[1..] == b;
    } else {
      assert (a + [from] + b)[1..] == a[1..] + [from] + b;
      ReplaceFirstAfter(a[1..], b, from, to);
      assert [a[0]] + a[1..] == a;
    }
  }

  lemma {:induction false} DigitsValueOfNatToString(n: nat)
    ensures DigitsValue(NatToString(n)) == n
    decreases n
  {
    var s := NatToString(n);
    if n >= 10 {
      DigitsValueOfNatToString(n / 10);
      assert s[..|s| - 1] == NatToString(n / 10);
    }
  }

  lemma {:induction false} DigitPrefixOfDigits(a: string, b: string)
    requires AllDigits(a)
    requires |b| == 0 || !IsDigit(b[0])
    ensures DigitPrefix(a + b) == a
  {
    if |a| == 0 {
      assert a + b == b;
    } else {
      assert (a + b)[1..] == a[1..] + b;
      DigitPrefixOfDigits(a[1..], b);
      assert [a[0]] + a[1..] == a;
    }
  }

}
