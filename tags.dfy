/**
 * Tag protection around a translation: every match of TAG_RE (an HTML-like
 * `<...>` tag or an ASS override `{\word}`) is swapped for a numbered
 * placeholder ⟨k⟩ before the text is sent, and the placeholders are swapped
 * back, in index order, afterwards.
 */
module Tags {
  import opened Strings

  /** The brackets of a placeholder, U+27E8 and U+27E9. */
  const Open: char := '\U{27E8}'
  const Close: char := '\U{27E9}'

  /** f"⟨{k}⟩". */
  function Placeholder(k: nat): string
  {
    [Open] + NatToString(k) + [Close]
  }

  /** A placeholder opens with ⟨ and holds no other ⟨. */
  lemma PlaceholderShape(k: nat)
    ensures |Placeholder(k)| >= 3 && Placeholder(k)[0] == Open
    ensures Open !in Placeholder(k)[1..]
  {
    assert Placeholder(k)[1..] == NatToString(k) + [Close];
  }

  /** Where the digits and the closing bracket of a placeholder sit, whatever follows it. */
  lemma PlaceholderParts(k: nat, rest: string)
    ensures |Placeholder(k) + rest| == |NatToString(k)| + 2 + |rest|
    ensures (Placeholder(k) + rest)[|NatToString(k)| + 1] == Close
    ensures forall q :: 1 <= q <= |NatToString(k)| ==> IsDigit((Placeholder(k) + rest)[q])
  {
    assert forall q :: 1 <= q <= |NatToString(k)| ==> (Placeholder(k) + rest)[q] == NatToString(k)[q - 1];
  }

  /** Two placeholders with different numbers never start alike: neither is a prefix of the other followed by anything. */
  lemma PlaceholderDistinct(j: nat, k: nat, rest: string)
    requires j != k
    ensures |Placeholder(k) + rest| < |Placeholder(j)|
      || (Placeholder(k) + rest)[..|Placeholder(j)|] != Placeholder(j)
  {
    var a := NatToString(j);
    var b := NatToString(k);
    var t := Placeholder(k) + rest;
    var p := Placeholder(j);
    PlaceholderParts(j, []);
    PlaceholderParts(k, rest);
    assert p + [] == p;
    if |t| >= |p| && t[..|p|] == p {
      if |a| < |b| {
        assert false;
      } else if |a| > |b| {
        assert false;
      }
      assert a == p[1..1 + |a|];
      assert b == t[1..1 + |b|];
      NatToStringInjective(j, k);
    }
  }

  // ---------------------------------------------------------------- TAG_RE

  /** `\w` on ASCII: letters, digits and the underscore. */
  predicate IsWordChar(c: char)
  {
    'a' <= c <= 'z' || 'A' <= c <= 'Z' || IsDigit(c) || c == '_'
  }

  /** How many characters from p on are not '>'. */
  function NonCloseRun(s: string, p: nat): (r: nat)
    requires p <= |s|
    ensures p + r <= |s|
    decreases |s| - p
  {
    if p < |s| && s[p] != '>' then 1 + NonCloseRun(s, p + 1) else 0
  }

  /** The run stops at the first '>' after p, or at the end. */
  lemma {:induction false} NonCloseRunStops(s: string, p: nat)
    requires p <= |s|
    ensures forall q :: p <= q < p + NonCloseRun(s, p) ==> s[q] != '>'
    ensures p + NonCloseRun(s, p) < |s| ==> s[p + NonCloseRun(s, p)] == '>'
    decreases |s| - p
  {
    if p < |s| && s[p] != '>' {
      NonCloseRunStops(s, p + 1);
    }
  }

  /** How many characters from p on are word characters. */
  function WordRun(s: string, p: nat): (r: nat)
    requires p <= |s|
    ensures p + r <= |s|
    decreases |s| - p
  {
    if p < |s| && IsWordChar(s[p]) then 1 + WordRun(s, p + 1) else 0
  }

  /** The run stops at the first character after p that is not a word character, or at the end. */
  lemma {:induction false} WordRunStops(s: string, p: nat)
    requires p <= |s|
    ensures forall q :: p <= q < p + WordRun(s, p) ==> IsWordChar(s[q])
    ensures p + WordRun(s, p) < |s| ==> !IsWordChar(s[p + WordRun(s, p)])
    decreases |s| - p
  {
    if p < |s| && IsWordChar(s[p]) {
      WordRunStops(s, p + 1);
    }
  }

  /**
   * The length of the match of TAG_RE = `(<[^>]+>|{\\\w+\d*})` at position i, or 0
   * when the pattern does not match there. `[^>]+` can only stop at the first '>',
   * and `\w+\d*` followed by '}' can only stop where the word characters end
   * (\d is part of \w), so neither alternative ever backtracks.
   */
  function TagLenAt(s: string, i: nat): (m: nat)
    requires i <= |s|
    ensures i + m <= |s|
  {
    if i < |s| && s[i] == '<' then
      var r := NonCloseRun(s, i + 1);
      if r >= 1 && i + 1 + r < |s| then r + 2 else 0
    else if i + 1 < |s| && s[i] == '{' && s[i + 1] == '\\' then
      var w := WordRun(s, i + 2);
      if w >= 1 && i + 2 + w < |s| && s[i + 2 + w] == '}' then w + 3 else 0
    else 0
  }

  /** `<[^>]+>` on a whole string. */
  predicate IsAngleTag(t: string)
  {
    |t| >= 3 && t[0] == '<' && t[|t| - 1] == '>' && forall q :: 1 <= q < |t| - 1 ==> t[q] != '>'
  }

  /** `{\\\w+\d*}` on a whole string. */
  predicate IsBraceTag(t: string)
  {
    |t| >= 4 && t[0] == '{' && t[1] == '\\' && t[|t| - 1] == '}'
    && forall q :: 2 <= q < |t| - 1 ==> IsWordChar(t[q])
  }

  /** What TAG_RE matches, as a whole string. */
  predicate IsTag(t: string)
  {
    IsAngleTag(t) || IsBraceTag(t)
  }

  /** The matcher finds a match of length m at i exactly when s[i..i + m] is a tag. */
  lemma MatchIsTag(s: string, i: nat, m: nat)
    requires i + m <= |s|
    ensures (m > 0 && TagLenAt(s, i) == m) <==> IsTag(s[i..i + m])
  {
    if m > 0 && TagLenAt(s, i) == m {
      MatchGivesTag(s, i, m);
    }
    if IsAngleTag(s[i..i + m]) {
      AngleTagMatches(s, i, m);
    } else if IsBraceTag(s[i..i + m]) {
      BraceTagMatches(s, i, m);
    }
  }

  /** What the matcher finds is a tag. */
  lemma MatchGivesTag(s: string, i: nat, m: nat)
    requires i + m <= |s| && m > 0 && TagLenAt(s, i) == m
    ensures IsTag(s[i..i + m])
  {
    var t := s[i..i + m];
    assert forall q :: 0 <= q < m ==> t[q] == s[i + q];
    if s[i] == '<' {
      NonCloseRunStops(s, i + 1);
      assert IsAngleTag(t);
    } else {
      WordRunStops(s, i + 2);
      assert IsBraceTag(t);
    }
  }

  /** An angle tag at i is what the matcher finds there. */
  lemma AngleTagMatches(s: string, i: nat, m: nat)
    requires i + m <= |s| && IsAngleTag(s[i..i + m])
    ensures TagLenAt(s, i) == m
  {
    var t := s[i..i + m];
    assert forall q :: 0 <= q < m ==> t[q] == s[i + q];
    var r := NonCloseRun(s, i + 1);
    NonCloseRunStops(s, i + 1);
    assert s[i] == '<';
    if r < m - 2 {
      assert false;
    } else if r > m - 2 {
      assert false;
    }
  }

  /** A brace tag at i is what the matcher finds there. */
  lemma BraceTagMatches(s: string, i: nat, m: nat)
    requires i + m <= |s| && IsBraceTag(s[i..i + m])
    ensures TagLenAt(s, i) == m
  {
    var t := s[i..i + m];
    assert forall q :: 0 <= q < m ==> t[q] == s[i + q];
    var w := WordRun(s, i + 2);
    WordRunStops(s, i + 2);
    assert s[i] == '{' && s[i + 1] == '\\' && s[i + m - 1] == '}';
    if w < m - 3 {
      assert false;
    }
  }

  // ---------------------------------------------------------------- protect_tags

  /** The protected text and the tags, tags[k] being the text behind ⟨k⟩. */
  datatype Protected = Protected(text: string, tags: seq<string>)

  /**
   * TAG_RE.sub(replacer, s[i..]) with k tags already recorded: scanning left to
   * right, each match becomes the next placeholder; every other character is kept.
   */
  function ProtectedText(s: string, i: nat, k: nat): string
    requires i <= |s|
    decreases |s| - i
  {
    if i == |s| then []
    else
      var m := TagLenAt(s, i);
      if m > 0 then Placeholder(k) + ProtectedText(s, i + m, k + 1)
      else [s[i]] + ProtectedText(s, i + 1, k)
  }

  /** The matches that the replacer appends to `tags` while scanning s[i..]. */
  function TagsFrom(s: string, i: nat): seq<string>
    requires i <= |s|
    decreases |s| - i
  {
    if i == |s| then []
    else
      var m := TagLenAt(s, i);
      if m > 0 then [s[i..i + m]] + TagsFrom(s, i + m)
      else TagsFrom(s, i + 1)
  }

  /** protect_tags(s). */
  function Protect(s: string): Protected
  {
    Protected(ProtectedText(s, 0, 0), TagsFrom(s, 0))
  }

  /** protect_tags: the substitution loop of re.sub, with the replacer appending to `tags`. */
  method ProtectTags(text: string) returns (protected: string, tags: seq<string>)
    ensures Protected(protected, tags) == Protect(text)
  {
    protected := [];
    tags := [];
    var i := 0;
    while i < |text|
      invariant i <= |text| && Scanned(text, i, protected, tags)
      decreases |text| - i
    {
      var m := TagLenAt(text, i);
      if m > 0 {
        ScanTag(text, i, protected, tags);
        protected := protected + Placeholder(|tags|);
        tags := tags + [text[i..i + m]];
        i := i + m;
      } else {
        ScanChar(text, i, protected, tags);
        protected := protected + [text[i]];
        i := i + 1;
      }
    }
    assert protected + [] == protected;
    assert tags + [] == tags;
  }

  /** The loop invariant of ProtectTags: what is built so far, followed by what s[i..] gives, is the whole result. */
  predicate Scanned(s: string, i: nat, protected: string, tags: seq<string>)
    requires i <= |s|
  {
    protected + ProtectedText(s, i, |tags|) == ProtectedText(s, 0, 0)
    && tags + TagsFrom(s, i) == TagsFrom(s, 0)
  }

  /** A match at i: its placeholder is appended to the text and the match to the tags. */
  lemma ScanTag(s: string, i: nat, protected: string, tags: seq<string>)
    requires i < |s| && TagLenAt(s, i) > 0 && Scanned(s, i, protected, tags)
    ensures Scanned(s, i + TagLenAt(s, i), protected + Placeholder(|tags|), tags + [s[i..i + TagLenAt(s, i)]])
  {
    var m := TagLenAt(s, i);
    var k := |tags|;
    ProtectStep(s, i, k);
    AppendAssoc(protected, Placeholder(k), ProtectedText(s, i + m, k + 1));
    AppendAssoc(tags, [s[i..i + m]], TagsFrom(s, i + m));
    assert |tags + [s[i..i + m]]| == k + 1;
  }

  /** No match at i: the character is kept. */
  lemma ScanChar(s: string, i: nat, protected: string, tags: seq<string>)
    requires i < |s| && TagLenAt(s, i) == 0 && Scanned(s, i, protected, tags)
    ensures Scanned(s, i + 1, protected + [s[i]], tags)
  {
    ProtectStep(s, i, |tags|);
    AppendAssoc(protected, [s[i]], ProtectedText(s, i + 1, |tags|));
  }

  /** One step of the scan: a match at i, or a character kept. */
  lemma ProtectStep(s: string, i: nat, k: nat)
    requires i < |s|
    ensures TagLenAt(s, i) > 0 ==>
      ProtectedText(s, i, k) == Placeholder(k) + ProtectedText(s, i + TagLenAt(s, i), k + 1)
      && TagsFrom(s, i) == [s[i..i + TagLenAt(s, i)]] + TagsFrom(s, i + TagLenAt(s, i))
    ensures TagLenAt(s, i) == 0 ==>
      ProtectedText(s, i, k) == [s[i]] + ProtectedText(s, i + 1, k) && TagsFrom(s, i) == TagsFrom(s, i + 1)
  {
  }

  /** Every recorded tag is a match of TAG_RE. */
  lemma {:induction false} ProtectedTagsAreTags(s: string, i: nat)
    requires i <= |s|
    ensures forall j :: 0 <= j < |TagsFrom(s, i)| ==> IsTag(TagsFrom(s, i)[j])
    decreases |s| - i
  {
    if i < |s| {
      var m := TagLenAt(s, i);
      if m > 0 {
        MatchIsTag(s, i, m);
        ProtectedTagsAreTags(s, i + m);
      } else {
        ProtectedTagsAreTags(s, i + 1);
      }
    }
  }

  /** Text with neither '<' nor '{' (the empty text included) comes back unchanged, with no tags. */
  lemma {:induction false} ProtectWithoutTags(s: string, i: nat, k: nat)
    requires i <= |s|
    requires forall q :: i <= q < |s| ==> s[q] != '<' && s[q] != '{'
    ensures ProtectedText(s, i, k) == s[i..] && TagsFrom(s, i) == []
    decreases |s| - i
  {
    if i < |s| {
      ProtectWithoutTags(s, i + 1, k);
      assert s[i..] == [s[i]] + s[i + 1..];
    }
  }

  /** The protected text of a non-empty s[i..] starts with s[i] or ⟨. */
  lemma ProtectedFirst(s: string, i: nat, k: nat)
    requires i < |s|
    ensures var p := ProtectedText(s, i, k); p != [] && (p[0] == s[i] || p[0] == Open)
  {
    ProtectStep(s, i, k);
    PlaceholderShape(k);
  }

  /** The protected text of s[i..] is empty only for i == |s|, and otherwise ends with s's last character or ⟩. */
  predicate EndsWell(s: string, i: nat, k: nat)
    requires i <= |s|
  {
    var p := ProtectedText(s, i, k);
    if i == |s| then p == [] else p != [] && (p[|p| - 1] == s[|s| - 1] || p[|p| - 1] == Close)
  }

  lemma {:induction false} ProtectedLast(s: string, i: nat, k: nat)
    requires i <= |s|
    ensures EndsWell(s, i, k)
    decreases |s| - i
  {
    if i < |s| {
      if TagLenAt(s, i) > 0 {
        ProtectedLast(s, i + TagLenAt(s, i), k + 1);
        LastAfterTag(s, i, k);
      } else {
        ProtectedLast(s, i + 1, k);
        LastAfterChar(s, i, k);
      }
    }
  }

  lemma LastAfterTag(s: string, i: nat, k: nat)
    requires i < |s| && TagLenAt(s, i) > 0 && EndsWell(s, i + TagLenAt(s, i), k + 1)
    ensures EndsWell(s, i, k)
  {
    var rest := ProtectedText(s, i + TagLenAt(s, i), k + 1);
    ProtectStep(s, i, k);
    PlaceholderParts(k, []);
    assert Placeholder(k) + [] == Placeholder(k);
    Ends(Placeholder(k), rest);
  }

  lemma LastAfterChar(s: string, i: nat, k: nat)
    requires i < |s| && TagLenAt(s, i) == 0 && EndsWell(s, i + 1, k)
    ensures EndsWell(s, i, k)
  {
    ProtectStep(s, i, k);
    Ends([s[i]], ProtectedText(s, i + 1, k));
  }

  /** Proof helper (models nothing): the ends of a concatenation with a non-empty front. */
  lemma Ends<T>(head: seq<T>, rest: seq<T>)
    requires head != []
    ensures (head + rest)[0] == head[0]
    ensures (head + rest)[|head + rest| - 1] == if rest == [] then head[|head| - 1] else rest[|rest| - 1]
  {
  }

  // ---------------------------------------------------------------- restore_tags

  /** The text after the first n rounds of restore_tags' loop. */
  function RestoreUpTo(text: string, tags: seq<string>, n: nat): string
    requires n <= |tags|
  {
    if n == 0 then text else Replace(RestoreUpTo(text, tags, n - 1), Placeholder(n - 1), tags[n - 1])
  }

  /** restore_tags(text, tags). */
  function Restored(text: string, tags: seq<string>): string
  {
    RestoreUpTo(text, tags, |tags|)
  }

  /** restore_tags: replace ⟨i⟩ by tags[i] for i = 0, 1, ... in turn. */
  method RestoreTags(text: string, tags: seq<string>) returns (r: string)
    ensures r == Restored(text, tags)
  {
    r := text;
    for i := 0 to |tags|
      invariant r == RestoreUpTo(text, tags, i)
    {
      r := Replace(r, Placeholder(i), tags[i]);
    }
  }

  /** Restoring into an empty reply gives the empty string, whatever the tags. */
  lemma {:induction false} RestoreEmpty(tags: seq<string>, n: nat)
    requires n <= |tags|
    ensures RestoreUpTo([], tags, n) == []
  {
    if n > 0 {
      RestoreEmpty(tags, n - 1);
      PlaceholderShape(n - 1);
      ReplaceShort([], Placeholder(n - 1), tags[n - 1]);
    }
  }

  // ---------------------------------------------------------------- the round trip

  /**
   * The protected text of s[i..] with the placeholders numbered below n already
   * swapped back for their tags.
   */
  function Partial(s: string, i: nat, k: nat, n: nat): string
    requires i <= |s|
    decreases |s| - i
  {
    if i == |s| then []
    else
      var m := TagLenAt(s, i);
      if m > 0 then (if k < n then s[i..i + m] else Placeholder(k)) + Partial(s, i + m, k + 1, n)
      else [s[i]] + Partial(s, i + 1, k, n)
  }

  /** With nothing swapped back yet, Partial is the protected text. */
  lemma {:induction false} PartialNone(s: string, i: nat, k: nat, n: nat)
    requires i <= |s| && n <= k
    ensures Partial(s, i, k, n) == ProtectedText(s, i, k)
    decreases |s| - i
  {
    if i < |s| {
      var m := TagLenAt(s, i);
      if m > 0 {
        PartialNone(s, i + m, k + 1, n);
      } else {
        PartialNone(s, i + 1, k, n);
      }
    }
  }

  /** With every placeholder swapped back, Partial is the original text. */
  lemma {:induction false} PartialAll(s: string, i: nat, k: nat, n: nat)
    requires i <= |s| && k + |TagsFrom(s, i)| <= n
    ensures Partial(s, i, k, n) == s[i..]
    decreases |s| - i
  {
    if i < |s| {
      var m := TagLenAt(s, i);
      if m > 0 {
        PartialAll(s, i + m, k + 1, n);
        SuffixSplit(s, i, i + m);
      } else {
        PartialAll(s, i + 1, k, n);
        SuffixSplit(s, i, i + 1);
      }
    }
  }

  /** Proof helper (models nothing): a character absent from a string is absent from its slices. */
  lemma SliceAvoids(s: string, i: nat, j: nat, c: char)
    requires i <= j <= |s| && c !in s
    ensures c !in s[i..j]
  {
  }

  /** Proof helper (models nothing): a suffix split at a later position. */
  lemma SuffixSplit<T>(s: seq<T>, i: nat, j: nat)
    requires i <= j <= |s|
    ensures s[i..] == s[i..j] + s[j..]
    ensures j == i + 1 ==> s[i..j] == [s[i]]
  {
  }

  /** A piece without ⟨ in front is left alone by the replacement of a placeholder. */
  lemma SkipPiece(a: string, b: string, n: nat, tag: string)
    requires Open !in a
    ensures Replace(a + b, Placeholder(n), tag) == a + Replace(b, Placeholder(n), tag)
  {
    PlaceholderShape(n);
    ReplaceSkips(a, b, Placeholder(n), tag);
  }

  /** The replacement of ⟨n⟩ passes over a different placeholder. */
  lemma SkipPlaceholder(k: nat, b: string, n: nat, tag: string)
    requires k != n
    ensures Replace(Placeholder(k) + b, Placeholder(n), tag) == Placeholder(k) + Replace(b, Placeholder(n), tag)
  {
    var p := Placeholder(k);
    var t := p + b;
    PlaceholderShape(k);
    PlaceholderShape(n);
    PlaceholderDistinct(n, k, b);
    assert t[1..] == p[1..] + b;
    SkipPiece(p[1..], b, n, tag);
    assert [t[0]] + (p[1..] + Replace(b, Placeholder(n), tag)) == p + Replace(b, Placeholder(n), tag);
  }

  /** The replacement of ⟨n⟩ swaps it for the tag where it stands. */
  lemma HitPlaceholder(b: string, n: nat, tag: string)
    ensures Replace(Placeholder(n) + b, Placeholder(n), tag) == tag + Replace(b, Placeholder(n), tag)
  {
    var p := Placeholder(n);
    PlaceholderShape(n);
    assert (p + b)[..|p|] == p && (p + b)[|p|..] == b;
  }

  /** One round of restore_tags turns Partial(.., n) into Partial(.., n + 1). */
  lemma {:induction false} ReplaceRound(s: string, i: nat, k: nat, n: nat, tag: string)
    requires i <= |s| && Open !in s
    requires k <= n < k + |TagsFrom(s, i)| ==> tag == TagsFrom(s, i)[n - k]
    ensures Replace(Partial(s, i, k, n), Placeholder(n), tag) == Partial(s, i, k, n + 1)
    decreases |s| - i, 1
  {
    if i == |s| {
      PlaceholderShape(n);
      ReplaceShort([], Placeholder(n), tag);
    } else if TagLenAt(s, i) > 0 {
      TagRound(s, i, k, n, tag);
    } else {
      NumberedSkipChar(s, i, k, n, tag);
      ReplaceRound(s, i + 1, k, n, tag);
      RoundChar(s, i, k, n, tag);
    }
  }

  /** ReplaceRound where a tag starts at i. */
  lemma {:induction false} TagRound(s: string, i: nat, k: nat, n: nat, tag: string)
    requires i < |s| && Open !in s && TagLenAt(s, i) > 0
    requires k <= n < k + |TagsFrom(s, i)| ==> tag == TagsFrom(s, i)[n - k]
    ensures Replace(Partial(s, i, k, n), Placeholder(n), tag) == Partial(s, i, k, n + 1)
    decreases |s| - i, 0
  {
    NumberedSkipTag(s, i, k, n, tag);
    ReplaceRound(s, i + TagLenAt(s, i), k + 1, n, tag);
    if k < n {
      RoundBefore(s, i, k, n, tag);
    } else if k == n {
      RoundAt(s, i, k, n, tag);
    } else {
      RoundAfter(s, i, k, n, tag);
    }
  }

  /** The tag numbered n is still the same one after a character outside every tag. */
  lemma NumberedSkipChar(s: string, i: nat, k: nat, n: nat, tag: string)
    requires i < |s| && TagLenAt(s, i) == 0
    requires k <= n < k + |TagsFrom(s, i)| ==> tag == TagsFrom(s, i)[n - k]
    ensures k <= n < k + |TagsFrom(s, i + 1)| ==> tag == TagsFrom(s, i + 1)[n - k]
  {
  }

  /** Past the tag numbered k, the tag numbered n is the (n - k - 1)-th of the rest. */
  lemma NumberedSkipTag(s: string, i: nat, k: nat, n: nat, tag: string)
    requires i < |s| && TagLenAt(s, i) > 0
    requires k <= n < k + |TagsFrom(s, i)| ==> tag == TagsFrom(s, i)[n - k]
    ensures k + 1 <= n < k + 1 + |TagsFrom(s, i + TagLenAt(s, i))|
      ==> tag == TagsFrom(s, i + TagLenAt(s, i))[n - k - 1]
    ensures k == n ==> tag == s[i..i + TagLenAt(s, i)]
  {
  }

  /** The round for ⟨n⟩ passes over a tag already swapped back. */
  lemma RoundBefore(s: string, i: nat, k: nat, n: nat, tag: string)
    requires i < |s| && Open !in s && TagLenAt(s, i) > 0 && k < n
    requires Replace(Partial(s, i + TagLenAt(s, i), k + 1, n), Placeholder(n), tag)
      == Partial(s, i + TagLenAt(s, i), k + 1, n + 1)
    ensures Replace(Partial(s, i, k, n), Placeholder(n), tag) == Partial(s, i, k, n + 1)
  {
    var m := TagLenAt(s, i);
    var piece := s[i..i + m];
    var later := Partial(s, i + m, k + 1, n);
    assert Partial(s, i, k, n) == piece + later;
    assert Partial(s, i, k, n + 1) == piece + Partial(s, i + m, k + 1, n + 1);
    SliceAvoids(s, i, i + m, Open);
    SkipPiece(piece, later, n, tag);
  }

  /** The round for ⟨n⟩ swaps the tag back where ⟨n⟩ stands. */
  lemma RoundAt(s: string, i: nat, k: nat, n: nat, tag: string)
    requires i < |s| && TagLenAt(s, i) > 0 && k == n
    requires tag == s[i..i + TagLenAt(s, i)]
    requires Replace(Partial(s, i + TagLenAt(s, i), k + 1, n), Placeholder(n), tag)
      == Partial(s, i + TagLenAt(s, i), k + 1, n + 1)
    ensures Replace(Partial(s, i, k, n), Placeholder(n), tag) == Partial(s, i, k, n + 1)
  {
    var m := TagLenAt(s, i);
    HitPlaceholder(Partial(s, i + m, k + 1, n), n, tag);
  }

  /** The round for ⟨n⟩ passes over a later placeholder. */
  lemma RoundAfter(s: string, i: nat, k: nat, n: nat, tag: string)
    requires i < |s| && TagLenAt(s, i) > 0 && n < k
    requires Replace(Partial(s, i + TagLenAt(s, i), k + 1, n), Placeholder(n), tag)
      == Partial(s, i + TagLenAt(s, i), k + 1, n + 1)
    ensures Replace(Partial(s, i, k, n), Placeholder(n), tag) == Partial(s, i, k, n + 1)
  {
    SkipPlaceholder(k, Partial(s, i + TagLenAt(s, i), k + 1, n), n, tag);
  }

  /** The round for ⟨n⟩ passes over a character outside every tag. */
  lemma RoundChar(s: string, i: nat, k: nat, n: nat, tag: string)
    requires i < |s| && Open !in s && TagLenAt(s, i) == 0
    requires Replace(Partial(s, i + 1, k, n), Placeholder(n), tag) == Partial(s, i + 1, k, n + 1)
    ensures Replace(Partial(s, i, k, n), Placeholder(n), tag) == Partial(s, i, k, n + 1)
  {
    SkipPiece([s[i]], Partial(s, i + 1, k, n), n, tag);
  }

  /** The first n rounds of restore_tags on protect_tags(s) give Partial(s, 0, 0, n). */
  lemma {:induction false} RestoreRounds(s: string, n: nat)
    requires Open !in s && n <= |Protect(s).tags|
    ensures RestoreUpTo(Protect(s).text, Protect(s).tags, n) == Partial(s, 0, 0, n)
  {
    if n == 0 {
      PartialNone(s, 0, 0, 0);
    } else {
      RestoreRounds(s, n - 1);
      ReplaceRound(s, 0, 0, n - 1, Protect(s).tags[n - 1]);
    }
  }

  /** restore_tags(*protect_tags(s)) == s for every s without ⟨. */
  lemma RestoreProtect(s: string)
    requires Open !in s
    ensures Restored(Protect(s).text, Protect(s).tags) == s
  {
    RestoreRounds(s, |Protect(s).tags|);
    PartialAll(s, 0, 0, |Protect(s).tags|);
  }

  /**
   * Without that precondition the round trip can fail: in `<a⟨1⟩b><c>` the first
   * tag carries a ⟨1⟩ of its own, which the second round of restore_tags replaces.
   */
  lemma RestoreNeedsNoOpen()
    ensures var x := "<a" + Placeholder(1) + "b><c>";
      Restored(Protect(x).text, Protect(x).tags) == "<a<c>b><c>" && "<a<c>b><c>" != x
  {
    var one := Placeholder(1);
    var t0 := "<a" + one + "b>";
    var t1 := "<c>";
    var x := "<a" + one + "b><c>";
    ProtectExample();
    FirstRoundExample();
    SecondRoundExample();
    var p := Protect(x);
    assert RestoreUpTo(p.text, p.tags, 1) == t0 + one;
    assert x[2] == Open;
  }

  /** protect_tags("<a⟨1⟩b><c>") == ("⟨0⟩⟨1⟩", ["<a⟨1⟩b>", "<c>"]). */
  lemma ProtectExample()
    ensures Protect("<a" + Placeholder(1) + "b><c>")
      == Protected(Placeholder(0) + Placeholder(1), ["<a" + Placeholder(1) + "b>", "<c>"])
  {
    var one := Placeholder(1);
    assert NatToString(1) == "1";
    assert one == [Open, '1', Close];
    var x := "<a" + one + "b><c>";
    var t0 := x[0..7];
    var t1 := x[7..10];
    assert t0 == "<a" + one + "b>";
    assert t1 == "<c>";
    assert NonCloseRun(x, 6) == 0;
    assert NonCloseRun(x, 5) == 1;
    assert NonCloseRun(x, 4) == 2;
    assert NonCloseRun(x, 3) == 3;
    assert NonCloseRun(x, 1) == 5;
    assert TagLenAt(x, 0) == 7;
    assert NonCloseRun(x, 8) == 1;
    assert TagLenAt(x, 7) == 3;
    assert ProtectedText(x, 7, 1) == one + ProtectedText(x, 10, 2);
    assert ProtectedText(x, 0, 0) == Placeholder(0) + one + [];
    assert TagsFrom(x, 7) == [t1];
    assert TagsFrom(x, 0) == [t0, t1];
  }

  /** Round 0 swaps ⟨0⟩ for the first tag and leaves ⟨1⟩. */
  lemma FirstRoundExample()
    ensures var one := Placeholder(1); var t0 := "<a" + one + "b>";
      Replace(Placeholder(0) + one, Placeholder(0), t0) == t0 + one
  {
    var one := Placeholder(1);
    var t0 := "<a" + one + "b>";
    HitPlaceholder(one, 0, t0);
    SkipPlaceholder(1, [], 0, t0);
    ReplaceShort([], Placeholder(0), t0);
    assert one + [] == one;
  }

  /** Round 1 swaps both ⟨1⟩, the one inside the first tag included. */
  lemma SecondRoundExample()
    ensures var one := Placeholder(1); var t0 := "<a" + one + "b>";
      Replace(t0 + one, one, "<c>") == "<a<c>b><c>"
  {
    var one := Placeholder(1);
    var t0 := "<a" + one + "b>";
    var t1 := "<c>";
    PlaceholderShape(1);
    assert t0 + one == "<a" + (one + ("b>" + one));
    SkipPiece("<a", one + ("b>" + one), 1, t1);
    HitPlaceholder("b>" + one, 1, t1);
    SkipPiece("b>", one + [], 1, t1);
    HitPlaceholder([], 1, t1);
    ReplaceShort([], one, t1);
    assert one + [] == one;
    assert "<a" + (t1 + ("b>" + (t1 + []))) == "<a<c>b><c>";
  }
}
