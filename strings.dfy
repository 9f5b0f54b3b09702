/**
 * The string builtins the subtitle translator relies on, restricted to ASCII:
 * str.strip, str.isdigit and int(), str.split and str.join on one separator,
 * str.replace, str.upper and str.lower, and str(n) for a natural number.
 */
module Strings {

  /** ASCII whitespace as str.strip() and the regex class \s see it. */
  predicate IsSpace(c: char)
  {
    c == ' ' || ('\t' <= c <= '\r') || ('\U{1C}' <= c <= '\U{1F}')
  }

  predicate IsDigit(c: char)
  {
    '0' <= c <= '9'
  }

  /** str.isdigit(): non-empty and made of digits only. */
  predicate AllDigits(s: string)
  {
    |s| > 0 && forall i :: 0 <= i < |s| ==> IsDigit(s[i])
  }

  /** Every character is whitespace (this is what `s.strip() == ""` tests, see Strip). */
  predicate IsBlank(s: string)
  {
    forall i :: 0 <= i < |s| ==> IsSpace(s[i])
  }

  /** The string holds neither a line feed nor a carriage return. */
  predicate NoLineBreak(s: string)
  {
    '\n' !in s && '\r' !in s
  }

  // ---------------------------------------------------------------- strip

  /** str.lstrip(): drops the leading whitespace. */
  function TrimLeft(s: string): (r: string)
    ensures |r| <= |s| && r == s[|s| - |r|..]
    ensures forall i :: 0 <= i < |s| - |r| ==> IsSpace(s[i])
    ensures r == [] || !IsSpace(r[0])
  {
    if s != [] && IsSpace(s[0]) then TrimLeft(s[1..]) else s
  }

  /** str.rstrip(): drops the trailing whitespace. */
  function TrimRight(s: string): (r: string)
    ensures |r| <= |s| && r == s[..|r|]
    ensures forall i :: |r| <= i < |s| ==> IsSpace(s[i])
    ensures r == [] || !IsSpace(r[|r| - 1])
  {
    if s != [] && IsSpace(s[|s| - 1]) then TrimRight(s[..|s| - 1]) else s
  }

  /** str.strip(): the string without its leading and trailing whitespace. */
  function Strip(s: string): (r: string)
    ensures |r| <= |s|
    ensures r == [] <==> IsBlank(s)
  {
    var t := TrimLeft(s);
    assert t == [] ==> IsBlank(s);
    assert t != [] ==> !IsBlank(s) by {
      if t != [] { assert s[|s| - |t|] == t[0]; }
    }
    TrimRight(t)
  }

  /** Neither end of Strip(s) is whitespace. */
  lemma StripTrimmed(s: string)
    ensures Strip(s) == [] || (!IsSpace(Strip(s)[0]) && !IsSpace(Strip(s)[|Strip(s)| - 1]))
  {
    var t := TrimLeft(s);
    var r := TrimRight(t);
    assert Strip(s) == r;
    assert t != [] ==> r != [] && r[0] == t[0];
  }

  /** A string that neither starts nor ends with whitespace is its own Strip. */
  lemma StripUnchanged(s: string)
    requires s == [] || (!IsSpace(s[0]) && !IsSpace(s[|s| - 1]))
    ensures Strip(s) == s
  {
    var t := TrimLeft(s);
    assert t == s;
    assert TrimRight(t) == s;
  }

  lemma StripIdempotent(s: string)
    ensures Strip(Strip(s)) == Strip(s)
  {
    StripTrimmed(s);
    StripUnchanged(Strip(s));
  }

  /** Strip removes characters and adds none: a character absent from s is absent from Strip(s). */
  lemma StripKeepsOut(s: string, c: char)
    requires c !in s
    ensures c !in Strip(s)
  {
  }

  lemma StripNoLineBreak(s: string)
    requires NoLineBreak(s)
    ensures NoLineBreak(Strip(s))
  {
    StripKeepsOut(s, '\n');
    StripKeepsOut(s, '\r');
  }

  /** str.rstrip("\n"): drops every trailing line feed. */
  function TrimTrailingNewlines(s: string): (r: string)
    ensures |r| <= |s| && r == s[..|r|]
    ensures forall i :: |r| <= i < |s| ==> s[i] == '\n'
    ensures r == [] || r[|r| - 1] != '\n'
  {
    if s != [] && s[|s| - 1] == '\n' then TrimTrailingNewlines(s[..|s| - 1]) else s
  }

  /** str.lstrip(c) for one character c. */
  function TrimLeftChar(s: string, c: char): (r: string)
    ensures |r| <= |s| && r == s[|s| - |r|..]
    ensures forall i :: 0 <= i < |s| - |r| ==> s[i] == c
    ensures r == [] || r[0] != c
  {
    if s != [] && s[0] == c then TrimLeftChar(s[1..], c) else s
  }

  // ---------------------------------------------------------------- join and split

  /** sep.join(parts). */
  function Join(parts: seq<string>, sep: string): string
  {
    if |parts| == 0 then []
    else if |parts| == 1 then parts[0]
    else parts[0] + sep + Join(parts[1..], sep)
  }

  /** s.split(c) with an explicit one-character separator: never empty; "" gives [""]. */
  function Split(s: string, c: char): (r: seq<string>)
    ensures |r| >= 1
    ensures forall i :: 0 <= i < |r| ==> c !in r[i]
  {
    if s == [] then [[]]
    else
      var rest := Split(s[1..], c);
      if s[0] == c then [[]] + rest else [[s[0]] + rest[0]] + rest[1..]
  }

  lemma {:induction false} JoinSnoc(parts: seq<string>, last: string, sep: string)
    requires |parts| >= 1
    ensures Join(parts + [last], sep) == Join(parts, sep) + sep + last
  {
    if |parts| == 1 {
      assert (parts + [last])[1..] == [last];
    } else {
      assert (parts + [last])[1..] == parts[1..] + [last];
      JoinSnoc(parts[1..], last, sep);
    }
  }

  /** t occurs in s. */
  predicate Contains(s: string, t: string)
  {
    exists at :: 0 <= at <= |s| && t <= s[at..]
  }

  /** Each part occurs in the joined string, at the returned offset. */
  lemma {:induction false} JoinContains(parts: seq<string>, sep: string, k: nat) returns (at: nat)
    requires k < |parts|
    ensures at <= |Join(parts, sep)| && parts[k] <= Join(parts, sep)[at..]
    ensures Contains(Join(parts, sep), parts[k])
  {
    var s := Join(parts, sep);
    if k == 0 {
      at := 0;
    } else {
      var rest := Join(parts[1..], sep);
      var inner := JoinContains(parts[1..], sep, k - 1);
      at := |parts[0]| + |sep| + inner;
      assert s == parts[0] + sep + rest;
      assert s[at..] == rest[inner..];
    }
  }

  /** A character in neither the parts nor the separator is not in the joined string. */
  lemma {:induction false} JoinAvoids(parts: seq<string>, sep: string, c: char)
    requires c !in sep
    requires forall i :: 0 <= i < |parts| ==> c !in parts[i]
    ensures c !in Join(parts, sep)
  {
    if |parts| > 1 {
      JoinAvoids(parts[1..], sep, c);
    }
  }

  /** A character missing from the string is missing from every piece of its split. */
  lemma {:induction false} SplitAvoids(s: string, c: char, d: char)
    requires d !in s
    ensures forall i :: 0 <= i < |Split(s, c)| ==> d !in Split(s, c)[i]
  {
    if s != [] {
      SplitAvoids(s[1..], c, d);
    }
  }

  lemma {:induction false} SplitWithout(a: string, c: char)
    requires c !in a
    ensures Split(a, c) == [a]
  {
    if a != [] {
      SplitWithout(a[1..], c);
      assert [a[0]] + a[1..] == a;
    }
  }

  lemma {:induction false} SplitAfter(a: string, c: char, rest: string)
    requires c !in a
    ensures Split(a + [c] + rest, c) == [a] + Split(rest, c)
  {
    if a == [] {
      assert a + [c] + rest == [c] + rest;
      assert ([c] + rest)[1..] == rest;
    } else {
      assert (a + [c] + rest)[1..] == a[1..] + [c] + rest;
      SplitAfter(a[1..], c, rest);
      assert [a[0]] + a[1..] == a;
    }
  }

  /** Splitting undoes joining on a separator that no part contains. */
  lemma {:induction false} SplitJoin(parts: seq<string>, c: char)
    requires |parts| >= 1
    requires forall i :: 0 <= i < |parts| ==> c !in parts[i]
    ensures Split(Join(parts, [c]), c) == parts
  {
    if |parts| == 1 {
      SplitWithout(parts[0], c);
    } else {
      SplitJoin(parts[1..], c);
      SplitAfter(parts[0], c, Join(parts[1..], [c]));
      assert [parts[0]] + parts[1..] == parts;
    }
  }

  /** Joining undoes splitting. */
  lemma {:induction false} JoinSplit(s: string, c: char)
    ensures Join(Split(s, c), [c]) == s
  {
    if s != [] {
      var rest := Split(s[1..], c);
      JoinSplit(s[1..], c);
      if s[0] == c {
        assert ([[]] + rest)[1..] == rest;
      } else {
        if |rest| > 1 {
          assert ([[s[0]] + rest[0]] + rest[1..])[1..] == rest[1..];
        }
      }
    }
  }

  // ---------------------------------------------------------------- replace

  /** s.replace(pat, rep): leftmost, non-overlapping occurrences, scanning left to right. */
  function Replace(s: string, pat: string, rep: string): string
    requires pat != []
    decreases |s|, 1
  {
    if |s| < |pat| then s else ReplaceHere(s, pat, rep)
  }

  /** Replace where the pattern would still fit: the pattern at the front, or a kept character. */
  function ReplaceHere(s: string, pat: string, rep: string): string
    requires pat != [] && |pat| <= |s|
    decreases |s|, 0
  {
    if s[..|pat|] == pat then rep + Replace(s[|pat|..], pat, rep)
    else [s[0]] + Replace(s[1..], pat, rep)
  }

  /** A prefix without the pattern's first character passes through untouched. */
  lemma {:induction false} ReplaceSkips(a: string, b: string, pat: string, rep: string)
    requires pat != []
    requires pat[0] !in a
    ensures Replace(a + b, pat, rep) == a + Replace(b, pat, rep)
  {
    if a == [] {
      assert a + b == b;
    } else {
      var s := a + b;
      if |s| < |pat| {
        ReplaceShort(b, pat, rep);
      } else {
        assert s[..|pat|][0] == a[0];
        assert s[1..] == a[1..] + b;
        ReplaceSkips(a[1..], b, pat, rep);
      }
    }
  }

  lemma ReplaceShort(s: string, pat: string, rep: string)
    requires pat != [] && |s| < |pat|
    ensures Replace(s, pat, rep) == s
  {
  }

  /** A string lacking some character of the pattern has no occurrence to replace. */
  lemma {:induction false} ReplaceAbsent(s: string, pat: string, rep: string, m: nat)
    requires m < |pat|
    requires pat[m] !in s
    ensures Replace(s, pat, rep) == s
  {
    if |s| >= |pat| {
      assert s[..|pat|][m] == s[m];
      ReplaceAbsent(s[1..], pat, rep, m);
    }
  }

  /** Replacing a separator that no part contains swaps it in the joined string. */
  lemma {:induction false} ReplaceJoin(parts: seq<string>, pat: string, rep: string)
    requires pat != []
    requires forall i :: 0 <= i < |parts| ==> pat[0] !in parts[i]
    requires |parts| == 1 ==> |parts[0]| < |pat| || parts[0][..|pat|] != pat
    ensures Replace(Join(parts, pat), pat, rep) == Join(parts, rep)
    decreases |parts|
  {
    if |parts| == 1 {
      ReplaceAbsent(parts[0], pat, rep, 0);
    } else if |parts| > 1 {
      var tail := Join(parts[1..], pat);
      ReplaceSkips(parts[0], pat + tail, pat, rep);
      assert (pat + tail)[..|pat|] == pat && (pat + tail)[|pat|..] == tail;
      if |parts| == 2 {
        ReplaceAbsent(parts[1], pat, rep, 0);
      } else {
        ReplaceJoin(parts[1..], pat, rep);
      }
      assert parts[0] + pat + tail == parts[0] + (pat + tail);
    }
  }

  /** Replacing one character by another leaves none of the first. */
  lemma {:induction false} ReplaceRemoves(s: string, c: char, d: char)
    requires c != d
    ensures c !in Replace(s, [c], [d])
    decreases |s|
  {
    if |s| >= 1 {
      ReplaceRemoves(s[1..], c, d);
    }
  }

  // ---------------------------------------------------------------- numbers

  function DigitChar(d: nat): (c: char)
    requires d < 10
    ensures IsDigit(c)
  {
    (('0' as int) + d) as char
  }

  function DigitValue(c: char): (d: nat)
    requires IsDigit(c)
    ensures d < 10 && DigitChar(d) == c
  {
    (c as int) - ('0' as int)
  }

  /** str(n) for a natural number: its decimal digits, without leading zeros. */
  function NatToString(n: nat): (r: string)
    ensures AllDigits(r)
  {
    if n < 10 then [DigitChar(n)] else NatToString(n / 10) + [DigitChar(n % 10)]
  }

  /** int(s) on a string of ASCII digits. */
  function DecimalValue(s: string): nat
    requires forall i :: 0 <= i < |s| ==> IsDigit(s[i])
  {
    if s == [] then 0 else 10 * DecimalValue(s[..|s| - 1]) + DigitValue(s[|s| - 1])
  }

  /** int(str(n)) == n. */
  lemma {:induction false} DecimalOfNatToString(n: nat)
    ensures DecimalValue(NatToString(n)) == n
  {
    if n >= 10 {
      var s := NatToString(n);
      assert s[..|s| - 1] == NatToString(n / 10);
      DecimalOfNatToString(n / 10);
    }
  }

  lemma NatToStringInjective(i: nat, j: nat)
    requires NatToString(i) == NatToString(j)
    ensures i == j
  {
    DecimalOfNatToString(i);
    DecimalOfNatToString(j);
  }

  // ---------------------------------------------------------------- case

  function UpperChar(c: char): char
  {
    if 'a' <= c <= 'z' then ((c as int) - 32) as char else c
  }

  function LowerChar(c: char): char
  {
    if 'A' <= c <= 'Z' then ((c as int) + 32) as char else c
  }

  /** str.upper() on ASCII letters. */
  function Upper(s: string): (r: string)
    ensures |r| == |s|
    ensures forall i :: 0 <= i < |s| ==> r[i] == UpperChar(s[i])
  {
    seq(|s|, i requires 0 <= i < |s| => UpperChar(s[i]))
  }

  /** str.lower() on ASCII letters. */
  function Lower(s: string): (r: string)
    ensures |r| == |s|
    ensures forall i :: 0 <= i < |s| ==> r[i] == LowerChar(s[i])
  {
    seq(|s|, i requires 0 <= i < |s| => LowerChar(s[i]))
  }

  /** Upper-casing leaves no ASCII lower-case letter and keeps every other character. */
  lemma UpperLeavesNoLower(s: string)
    ensures forall i :: 0 <= i < |s| ==> !('a' <= Upper(s)[i] <= 'z')
    ensures forall i :: 0 <= i < |s| && !('a' <= s[i] <= 'z') ==> Upper(s)[i] == s[i]
  {
  }

  /** Lower-casing forgets an earlier upper-casing, so a lower-cased comparison ignores case. */
  lemma {:induction false} LowerOfUpper(s: string)
    ensures Lower(Upper(s)) == Lower(s)
  {
    forall i | 0 <= i < |s|
      ensures Lower(Upper(s))[i] == Lower(s)[i]
    {
      assert Upper(s)[i] == UpperChar(s[i]);
    }
  }

  /** Upper-casing forgets an earlier lower-casing. */
  lemma {:induction false} UpperOfLower(s: string)
    ensures Upper(Lower(s)) == Upper(s)
  {
    forall i | 0 <= i < |s|
      ensures Upper(Lower(s))[i] == Upper(s)[i]
    {
      assert Lower(s)[i] == LowerChar(s[i]);
    }
  }

  /** Proof helper (models nothing): concatenation regroups. */
  lemma AppendAssoc<T>(a: seq<T>, b: seq<T>, c: seq<T>)
    ensures a + b + c == a + (b + c)
  {
  }
}
