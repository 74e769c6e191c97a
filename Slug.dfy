/**
 * Slug derivation. Both routers carry a character-for-character identical
 * `generateSlug` helper (a lower-casing followed by four `replace` calls and a
 * `trim`); it is modelled once here and used by both.
 *
 * Characters are Unicode scalar values. Only ASCII letters are lower-cased;
 * `\w` (without the `u` flag) is ASCII-only, so every other non-whitespace,
 * non-ASCII character is deleted by the second step either way.
 */
module Slug {

  /** `\w` in a JavaScript regular expression without the `u` flag. */
  predicate IsWordChar(c: char) {
    ('a' <= c <= 'z') || ('A' <= c <= 'Z') || ('0' <= c <= '9') || c == '_'
  }

  /** `\s` in a JavaScript regular expression; also what `String.prototype.trim` strips. */
  predicate IsSpace(c: char) {
    c == ' ' || c == '\t' || c == '\n' || c == '\U{B}' || c == '\U{C}' || c == '\r'
    || c == '\U{A0}' || c == '\U{1680}' || ('\U{2000}' <= c <= '\U{200A}')
    || c == '\U{2028}' || c == '\U{2029}' || c == '\U{202F}' || c == '\U{205F}'
    || c == '\U{3000}' || c == '\U{FEFF}'
  }

  predicate IsHyphen(c: char) {
    c == '-'
  }

  /** The characters the pattern `[^\w\s-]` does not match. */
  predicate IsKept(c: char) {
    IsWordChar(c) || IsSpace(c) || c == '-'
  }

  /** The alphabet of a generated slug. */
  predicate IsSlugChar(c: char) {
    ('a' <= c <= 'z') || ('0' <= c <= '9') || c == '_' || c == '-'
  }

  /** A string over the slug alphabet with no two adjacent hyphens. */
  predicate IsSlug(s: string) {
    && (forall i :: 0 <= i < |s| ==> IsSlugChar(s[i]))
    && (forall i :: 0 <= i < |s| - 1 ==> !(s[i] == '-' && s[i + 1] == '-'))
  }

  /** An upper-case ASCII letter becomes its own lower-case letter; nothing else changes. */
  function LowerChar(c: char): (r: char)
    ensures !('A' <= r <= 'Z')
    ensures IsWordChar(r) == IsWordChar(c)
    ensures !('A' <= c <= 'Z') ==> r == c
    ensures 'A' <= c <= 'Z' ==> 'a' <= r <= 'z' && r as int - 'a' as int == c as int - 'A' as int
  {
    if 'A' <= c <= 'Z' then (c as int + 32) as char else c
  }

  /**
   * `toLowerCase`, on ASCII letters: same length, each upper-case letter replaced by its
   * lower-case letter at the same position, every other character kept, so no upper-case
   * letter is left and every position keeps its class (word character, whitespace, hyphen).
   */
  function Lower(s: string): (r: string)
    ensures |r| == |s|
    ensures forall i :: 0 <= i < |s| ==> !('A' <= r[i] <= 'Z')
    ensures forall i :: 0 <= i < |s| && !('A' <= s[i] <= 'Z') ==> r[i] == s[i]
    ensures forall i :: 0 <= i < |s| && 'A' <= s[i] <= 'Z' ==>
      'a' <= r[i] <= 'z' && r[i] as int - 'a' as int == s[i] as int - 'A' as int
    ensures forall i :: 0 <= i < |s| ==>
      IsWordChar(r[i]) == IsWordChar(s[i]) && (IsSpace(s[i]) ==> r[i] == s[i]) && (s[i] == '-' ==> r[i] == '-')
  {
    seq(|s|, i requires 0 <= i < |s| => LowerChar(s[i]))
  }

  /** `.replace(/[^\w\s-]/g, '')`: delete every character outside `[\w\s-]`. */
  function StripDisallowed(s: string): (r: string)
    ensures |r| <= |s|
    ensures forall c :: c in r ==> c in s && IsKept(c)
  {
    if s == [] then []
    else (if IsKept(s[0]) then [s[0]] else []) + StripDisallowed(s[1..])
  }

  /** The longest suffix of `s` that does not start with a character satisfying `p`. */
  function DropRun(s: string, p: char -> bool): (r: string)
    ensures |r| <= |s|
    ensures r == [] || !p(r[0])
    ensures forall c :: c in r ==> c in s
  {
    if s != [] && p(s[0]) then DropRun(s[1..], p) else s
  }

  /**
   * A global replacement of the pattern "one or more characters satisfying `p`"
   * by a single `-`: every maximal run of such characters becomes one hyphen.
   * `p == IsSpace` is `.replace(/\s+/g, '-')`; `p == IsHyphen` is `.replace(/-+/g, '-')`.
   */
  function ReplaceRuns(s: string, p: char -> bool): (r: string)
    ensures |r| <= |s|
    ensures forall c :: c in r ==> c == '-' || (c in s && !p(c))
    ensures s != [] ==> r != [] && r[0] == (if p(s[0]) then '-' else s[0])
    decreases |s|
  {
    if s == [] then []
    else if p(s[0]) then "-" + ReplaceRuns(DropRun(s[1..], p), p)
    else [s[0]] + ReplaceRuns(s[1..], p)
  }

  /** `r` is `s[i..i + |r|]`, and everything of `s` before and after it is whitespace. */
  predicate SpacePadded(s: string, r: string, i: int) {
    && 0 <= i && i + |r| <= |s|
    && r == s[i..i + |r|]
    && (forall k :: 0 <= k < i ==> IsSpace(s[k]))
    && (forall k :: i + |r| <= k < |s| ==> IsSpace(s[k]))
  }

  /**
   * `.trim()`: strip leading and trailing whitespace. What is left neither starts nor
   * ends with whitespace; TrimPadded shows it is a piece of the input with only
   * whitespace around it.
   */
  function Trim(s: string): (r: string)
    ensures |r| <= |s|
    ensures r == [] || (!IsSpace(r[0]) && !IsSpace(r[|r| - 1]))
  {
    TrimEnd(DropRun(s, IsSpace))
  }

  /** Trim removes exactly the leading whitespace run and the trailing one. */
  lemma {:induction false} TrimPadded(s: string)
    ensures SpacePadded(s, Trim(s), |s| - |DropRun(s, IsSpace)|)
  {
    var d := DropRun(s, IsSpace);
    DropRunSuffix(s, IsSpace);
    PaddedInSuffix(s, d, TrimEnd(d), |s| - |d|);
  }

  /** A whitespace-padded prefix of a suffix after whitespace is whitespace-padded in the whole. */
  lemma {:induction false} PaddedInSuffix(s: string, d: string, r: string, i: int)
    requires 0 <= i <= |s| && d == s[i..] && r <= d
    requires forall k :: 0 <= k < i ==> IsSpace(s[k])
    requires forall k :: |r| <= k < |d| ==> IsSpace(d[k])
    ensures SpacePadded(s, r, i)
  {
    assert r == s[i..i + |r|];
    forall k | i + |r| <= k < |s| ensures IsSpace(s[k]) {
      assert s[k] == d[k - i];
    }
  }

  /** Strip trailing whitespace: the result is the longest prefix not ending in whitespace. */
  function TrimEnd(s: string): (r: string)
    ensures r <= s
    ensures r == [] || !IsSpace(r[|r| - 1])
    ensures forall i :: |r| <= i < |s| ==> IsSpace(s[i])
  {
    if s != [] && IsSpace(s[|s| - 1]) then TrimEnd(s[..|s| - 1]) else s
  }

  /**
   * `generateSlug` (src/server/routers/categories.ts:21-28, src/server/routers/posts.ts:27-34).
   * A slug is never longer than the text it is derived from.
   */
  function GenerateSlug(text: string): (r: string)
    ensures |r| <= |text|
  {
    Trim(ReplaceRuns(ReplaceRuns(StripDisallowed(Lower(text)), IsSpace), IsHyphen))
  }

  /** The characters of `s` in the class `q`, in order. */
  function Keep(s: string, q: char -> bool): string {
    if s == [] then []
    else (if q(s[0]) then [s[0]] else []) + Keep(s[1..], q)
  }

  /** The word characters of `s`, in order. */
  function Words(s: string): string {
    Keep(s, IsWordChar)
  }

  // ---------------------------------------------------------------------------
  // The output alphabet

  /** No two adjacent characters of `r` satisfy `p`. */
  predicate NoAdjacent(r: string, p: char -> bool) {
    forall i :: 0 <= i < |r| - 1 ==> !(p(r[i]) && p(r[i + 1]))
  }

  lemma {:induction false} ReplaceRunsNoAdjacent(s: string, p: char -> bool)
    requires p('-')
    ensures NoAdjacent(ReplaceRuns(s, p), p)
    decreases |s|
  {
    if s == [] {
    } else if p(s[0]) {
      var d := DropRun(s[1..], p);
      ReplaceRunsNoAdjacent(d, p);
      var t := ReplaceRuns(d, p);
      var r := ReplaceRuns(s, p);
      assert r == "-" + t;
      assert t != [] ==> !p(t[0]);
      forall i | 0 <= i < |r| - 1 ensures !(p(r[i]) && p(r[i + 1])) {
        if i > 0 {
          assert r[i] == t[i - 1] && r[i + 1] == t[i];
        }
      }
    } else {
      ReplaceRunsNoAdjacent(s[1..], p);
      var t := ReplaceRuns(s[1..], p);
      var r := ReplaceRuns(s, p);
      assert r == [s[0]] + t;
      forall i | 0 <= i < |r| - 1 ensures !(p(r[i]) && p(r[i + 1])) {
        if i > 0 {
          assert r[i] == t[i - 1] && r[i + 1] == t[i];
        }
      }
    }
  }

  lemma {:induction false} TrimWithoutSpaces(s: string)
    requires forall c :: c in s ==> !IsSpace(c)
    ensures Trim(s) == s
  {
    assert DropRun(s, IsSpace) == s;
    if s != [] {
      assert s[|s| - 1] in s;
    }
  }

  /** Every generated slug is over `[a-z0-9_-]` with no `--`; in particular it holds no whitespace. */
  lemma {:induction false} GenerateSlugIsSlug(text: string)
    ensures IsSlug(GenerateSlug(text))
  {
    var l := Lower(text);
    var u := StripDisallowed(l);
    forall c | c in u
      ensures ('a' <= c <= 'z') || ('0' <= c <= '9') || c == '_' || c == '-' || IsSpace(c)
    {
      var i :| 0 <= i < |l| && l[i] == c;
      assert c == LowerChar(text[i]);
    }
    var v := ReplaceRuns(u, IsSpace);
    var w := ReplaceRuns(v, IsHyphen);
    assert forall c :: c in w ==> IsSlugChar(c);
    ReplaceRunsNoAdjacent(v, IsHyphen);
    TrimWithoutSpaces(w);
    assert GenerateSlug(text) == w;
    forall i | 0 <= i < |w| ensures IsSlugChar(w[i]) {
      assert w[i] in w;
    }
    assert NoAdjacent(w, IsHyphen);
    forall i | 0 <= i < |w| - 1 ensures !(w[i] == '-' && w[i + 1] == '-') {
      assert !(IsHyphen(w[i]) && IsHyphen(w[i + 1]));
    }
  }

  // ---------------------------------------------------------------------------
  // Idempotence

  lemma {:induction false} StripDisallowedFixed(s: string)
    requires forall c :: c in s ==> IsKept(c)
    ensures StripDisallowed(s) == s
  {
    if s != [] {
      assert s[0] in s;
      assert forall c :: c in s[1..] ==> c in s;
      StripDisallowedFixed(s[1..]);
      assert s == [s[0]] + s[1..];
    }
  }

  lemma {:induction false} ReplaceRunsFixed(s: string, p: char -> bool)
    requires forall i :: 0 <= i < |s| && p(s[i]) ==> s[i] == '-' && (i + 1 < |s| ==> !p(s[i + 1]))
    ensures ReplaceRuns(s, p) == s
    decreases |s|
  {
    if s != [] {
      var t := s[1..];
      assert forall i :: 0 <= i < |t| ==> t[i] == s[i + 1];
      ReplaceRunsFixed(t, p);
      if p(s[0]) {
        assert DropRun(t, p) == t;
        assert s == "-" + t;
      } else {
        assert s == [s[0]] + t;
      }
    }
  }

  /** A string that already is a slug is its own slug. */
  lemma {:induction false} GenerateSlugFixed(s: string)
    requires IsSlug(s)
    ensures GenerateSlug(s) == s
  {
    assert forall i :: 0 <= i < |s| ==> Lower(s)[i] == s[i];
    assert Lower(s) == s;
    forall c | c in s ensures IsKept(c) && !IsSpace(c) {
      var i :| 0 <= i < |s| && s[i] == c;
      assert IsSlugChar(s[i]);
    }
    StripDisallowedFixed(s);
    ReplaceRunsFixed(s, IsSpace);
    ReplaceRunsFixed(s, IsHyphen);
    TrimWithoutSpaces(s);
  }

  /** `generateSlug(generateSlug(s)) == generateSlug(s)`. */
  lemma {:induction false} GenerateSlugIdempotent(text: string)
    ensures GenerateSlug(GenerateSlug(text)) == GenerateSlug(text)
  {
    GenerateSlugIsSlug(text);
    GenerateSlugFixed(GenerateSlug(text));
  }

  // ---------------------------------------------------------------------------
  // Content: the slug spells the input's word characters, lower-cased, in order

  lemma {:induction false} KeepAppend(a: string, b: string, q: char -> bool)
    ensures Keep(a + b, q) == Keep(a, q) + Keep(b, q)
  {
    if a != [] {
      assert (a + b)[1..] == a[1..] + b;
      KeepAppend(a[1..], b, q);
    } else {
      assert a + b == b;
    }
  }

  lemma {:induction false} WordsLower(s: string)
    ensures Words(Lower(s)) == Lower(Words(s))
  {
    if s != [] {
      assert Lower(s) == [LowerChar(s[0])] + Lower(s[1..]) by {
        LowerCons(s[0], s[1..]);
        assert s == [s[0]] + s[1..];
      }
      KeepAppend([LowerChar(s[0])], Lower(s[1..]), IsWordChar);
      WordsLower(s[1..]);
      assert Words(s) == (if IsWordChar(s[0]) then [s[0]] else []) + Words(s[1..]);
      if IsWordChar(s[0]) {
        LowerCons(s[0], Words(s[1..]));
      }
    }
  }

  lemma {:induction false} LowerCons(c: char, t: string)
    ensures Lower([c] + t) == [LowerChar(c)] + Lower(t)
  {
    var a, b := Lower([c] + t), Lower(t);
    forall i | 0 <= i < |a| ensures a[i] == ([LowerChar(c)] + b)[i] {
      if i > 0 {
        assert ([c] + t)[i] == t[i - 1];
      }
    }
  }

  /**
   * Deleting the characters outside `[\w\s-]` loses none inside it: for any class of
   * kept characters, those of the input survive, in order.
   */
  lemma {:induction false} KeepStripDisallowed(s: string, q: char -> bool)
    requires forall c :: q(c) ==> IsKept(c)
    ensures Keep(StripDisallowed(s), q) == Keep(s, q)
  {
    if s != [] {
      KeepStripDisallowed(s[1..], q);
      KeepAppend(if IsKept(s[0]) then [s[0]] else [], StripDisallowed(s[1..]), q);
    }
  }

  lemma {:induction false} KeepDropRun(s: string, p: char -> bool, q: char -> bool)
    requires forall c :: p(c) ==> !q(c)
    ensures Keep(DropRun(s, p), q) == Keep(s, q)
  {
    if s != [] && p(s[0]) {
      assert !q(s[0]);
      assert Keep(s, q) == Keep(s[1..], q);
      KeepDropRun(s[1..], p, q);
    }
  }

  /**
   * Replacing runs keeps every character outside the replaced class: for any class
   * disjoint from it and not containing `-`, its characters survive, in order.
   */
  lemma {:induction false} KeepReplaceRuns(s: string, p: char -> bool, q: char -> bool)
    requires forall c :: p(c) ==> !q(c)
    requires !q('-')
    ensures Keep(ReplaceRuns(s, p), q) == Keep(s, q)
    decreases |s|
  {
    if s != [] {
      if p(s[0]) {
        var d := DropRun(s[1..], p);
        KeepReplaceRuns(d, p, q);
        KeepDropRun(s[1..], p, q);
        KeepAppend("-", ReplaceRuns(d, p), q);
      } else {
        KeepReplaceRuns(s[1..], p, q);
        KeepAppend([s[0]], ReplaceRuns(s[1..], p), q);
      }
    }
  }

  /** Two adjacent characters of the class give the same result as one: a run leaves one `-`. */
  lemma {:induction false} ReplaceRunsCollapse(c: char, d: char, t: string, p: char -> bool)
    requires p(c) && p(d)
    ensures ReplaceRuns([c, d] + t, p) == ReplaceRuns([d] + t, p)
  {
    assert ([c, d] + t)[1..] == [d] + t;
    assert ([d] + t)[1..] == t;
    assert DropRun([d] + t, p) == DropRun(t, p);
  }

  /** The word characters of the slug are those of the input, lower-cased and in order. */
  lemma {:induction false} GenerateSlugWords(text: string)
    ensures Words(GenerateSlug(text)) == Lower(Words(text))
  {
    var u := StripDisallowed(Lower(text));
    var v := ReplaceRuns(u, IsSpace);
    var w := ReplaceRuns(v, IsHyphen);
    WordsLower(text);
    KeepStripDisallowed(Lower(text), IsWordChar);
    KeepReplaceRuns(u, IsSpace, IsWordChar);
    KeepReplaceRuns(v, IsHyphen, IsWordChar);
    HyphenatedHasNoSpace(u);
    TrimWithoutSpaces(w);
  }

  /** After both replacements no whitespace is left for `trim` to strip. */
  lemma HyphenatedHasNoSpace(u: string)
    ensures forall c :: c in ReplaceRuns(ReplaceRuns(u, IsSpace), IsHyphen) ==> !IsSpace(c)
  {
    var v := ReplaceRuns(u, IsSpace);
    forall c | c in ReplaceRuns(v, IsHyphen) ensures !IsSpace(c) {
      assert c == '-' || c in v;
    }
  }

  // ---------------------------------------------------------------------------
  // Edge hyphens survive

  /** Whitespace at the start of the text becomes a hyphen the slug starts with. */
  lemma {:induction false} LeadingSpaceGivesHyphen(text: string)
    requires text != [] && IsSpace(text[0])
    ensures GenerateSlug(text) != [] && GenerateSlug(text)[0] == '-'
  {
    var l := Lower(text);
    var u := StripDisallowed(l);
    assert u != [] && u[0] == l[0];
    var w := ReplaceRuns(ReplaceRuns(u, IsSpace), IsHyphen);
    HyphenatedHasNoSpace(u);
    TrimWithoutSpaces(w);
  }

  /** Whitespace at the end of the text becomes a hyphen the slug ends with. */
  lemma {:induction false} TrailingSpaceGivesHyphen(text: string)
    requires text != [] && IsSpace(text[|text| - 1])
    ensures GenerateSlug(text) != [] && GenerateSlug(text)[|GenerateSlug(text)| - 1] == '-'
  {
    var l := Lower(text);
    var u := StripDisallowed(l);
    assert u != [] && IsSpace(u[|u| - 1]) by {
      assert l[|l| - 1] == text[|text| - 1];
      StripDisallowedLast(l);
    }
    var v := ReplaceRuns(u, IsSpace);
    var w := ReplaceRuns(v, IsHyphen);
    assert w != [] && w[|w| - 1] == '-' by {
      ReplaceRunsLast(u, IsSpace);
      ReplaceRunsLast(v, IsHyphen);
    }
    assert Trim(w) == w by {
      HyphenatedHasNoSpace(u);
      TrimWithoutSpaces(w);
    }
    assert GenerateSlug(text) == w;
  }

  /** A kept last character stays the last character. */
  lemma {:induction false} StripDisallowedLast(s: string)
    requires s != [] && IsKept(s[|s| - 1])
    ensures StripDisallowed(s) != [] && StripDisallowed(s)[|StripDisallowed(s)| - 1] == s[|s| - 1]
  {
    if |s| > 1 {
      assert s[1..][|s| - 2] == s[|s| - 1];
      StripDisallowedLast(s[1..]);
    }
  }

  /** Dropping a leading run leaves a suffix, and what it drops is all in the class. */
  lemma {:induction false} DropRunSuffix(s: string, p: char -> bool)
    ensures DropRun(s, p) == s[|s| - |DropRun(s, p)|..]
    ensures forall k :: 0 <= k < |s| - |DropRun(s, p)| ==> p(s[k])
  {
    if s != [] && p(s[0]) {
      DropRunSuffix(s[1..], p);
    }
  }

  /** Dropping a leading run keeps the last character of what is left. */
  lemma {:induction false} DropRunLast(s: string, p: char -> bool)
    requires DropRun(s, p) != []
    ensures DropRun(s, p)[|DropRun(s, p)| - 1] == s[|s| - 1]
  {
    if p(s[0]) {
      DropRunLast(s[1..], p);
    }
  }

  /** A run of the class at the end of the input leaves a hyphen at the end of the result. */
  lemma {:induction false} ReplaceRunsLast(s: string, p: char -> bool)
    requires s != [] && p(s[|s| - 1])
    ensures ReplaceRuns(s, p) != [] && ReplaceRuns(s, p)[|ReplaceRuns(s, p)| - 1] == '-'
    decreases |s|
  {
    if p(s[0]) {
      var d := DropRun(s[1..], p);
      if d != [] {
        DropRunLast(s[1..], p);
        assert d[|d| - 1] == s[|s| - 1];
        ReplaceRunsLast(d, p);
      }
    } else {
      assert s[1..][|s| - 2] == s[|s| - 1];
      ReplaceRunsLast(s[1..], p);
    }
  }

  /** The two lemmas above on one input: both edge hyphens stay. */
  lemma EdgeHyphensKept()
    ensures GenerateSlug(" Hi ") == "-hi-"
  {
    LowerExample();
    StripExample();
    HyphenateExample();
    CollapseExample();
    TrimExample();
    assert GenerateSlug(" Hi ") == Trim(ReplaceRuns(ReplaceRuns(" hi ", IsSpace), IsHyphen));
  }

  lemma StripExample()
    ensures StripDisallowed(" hi ") == " hi "
  {
    StripDisallowedFixed(" hi ");
  }

  lemma CollapseExample()
    ensures ReplaceRuns("-hi-", IsHyphen) == "-hi-"
  {
    ReplaceRunsFixed("-hi-", IsHyphen);
  }

  lemma TrimExample()
    ensures Trim("-hi-") == "-hi-"
  {
    TrimWithoutSpaces("-hi-");
  }

  lemma LowerExample()
    ensures Lower(" Hi ") == " hi "
  {
    var l := Lower(" Hi ");
    assert forall i :: 0 <= i < 4 ==> l[i] == " hi "[i];
  }

  lemma HyphenateExample()
    ensures ReplaceRuns(" hi ", IsSpace) == "-hi-"
  {
    HyphenateWordExample();
    assert " hi " == [' '] + "hi ";
    ReplaceRunsHead(' ', "hi ", IsSpace);
  }

  lemma HyphenateWordExample()
    ensures ReplaceRuns("hi ", IsSpace) == "hi-"
  {
    HyphenateSpaceExample();
    assert "i " == ['i'] + " ";
    ReplaceRunsCons('i', " ", IsSpace);
    assert "hi " == ['h'] + "i ";
    ReplaceRunsCons('h', "i ", IsSpace);
  }

  lemma HyphenateSpaceExample()
    ensures ReplaceRuns(" ", IsSpace) == "-"
  {
    assert " " == [' '] + [];
    ReplaceRunsHead(' ', [], IsSpace);
  }

  // ---------------------------------------------------------------------------
  // A seeded category

  /** One whitespace character between two runs without any becomes exactly one hyphen. */
  lemma {:induction false} ReplaceRunsOne(a: string, c: char, b: string, p: char -> bool)
    requires forall x :: x in a ==> !p(x)
    requires p(c)
    requires b == [] || !p(b[0])
    ensures ReplaceRuns(a + [c] + b, p) == a + "-" + ReplaceRuns(b, p)
  {
    var tail := [c] + b;
    assert a + [c] + b == a + tail;
    forall i | 0 <= i < |a| ensures !p(a[i]) {
      assert a[i] in a;
    }
    ReplaceRunsPrefix(a, tail, p);
    ReplaceRunsHead(c, b, p);
    assert a + ("-" + ReplaceRuns(b, p)) == a + "-" + ReplaceRuns(b, p);
  }

  /** A single character of the class before a run outside it becomes one hyphen. */
  lemma {:induction false} ReplaceRunsHead(c: char, b: string, p: char -> bool)
    requires p(c)
    requires b == [] || !p(b[0])
    ensures ReplaceRuns([c] + b, p) == "-" + ReplaceRuns(b, p)
  {
    assert ([c] + b)[1..] == b;
    assert DropRun(b, p) == b;
  }

  /** A prefix without characters of the class passes through unchanged. */
  lemma {:induction false} ReplaceRunsPrefix(a: string, t: string, p: char -> bool)
    requires forall i :: 0 <= i < |a| ==> !p(a[i])
    ensures ReplaceRuns(a + t, p) == a + ReplaceRuns(t, p)
    decreases |a|
  {
    if a != [] {
      var u := a[1..] + t;
      assert ReplaceRuns(a + t, p) == [a[0]] + ReplaceRuns(u, p) by {
        assert a + t == [a[0]] + u;
        ReplaceRunsCons(a[0], u, p);
      }
      ReplaceRunsPrefix(a[1..], t, p);
      SplitHead(a, ReplaceRuns(t, p));
    } else {
      assert a + t == t;
    }
  }

  lemma {:induction false} SplitHead(a: string, z: string)
    requires a != []
    ensures a + z == [a[0]] + (a[1..] + z)
  {
    assert a == [a[0]] + a[1..];
  }

  lemma {:induction false} ReplaceRunsCons(x: char, t: string, p: char -> bool)
    requires !p(x)
    ensures ReplaceRuns([x] + t, p) == [x] + ReplaceRuns(t, p)
  {
    assert ([x] + t)[1..] == t;
  }

  /** The string `a + [c] + b` lower-cases piecewise. */
  lemma {:induction false} LowerAppend(a: string, c: char, b: string)
    ensures Lower(a + [c] + b) == Lower(a) + [LowerChar(c)] + Lower(b)
  {
    var s := a + [c] + b;
    assert forall i :: 0 <= i < |a| ==> s[i] == a[i];
    assert forall i :: |a| + 1 <= i < |s| ==> s[i] == b[i - |a| - 1];
  }

  /**
   * Two runs of word characters separated by one space slug to the two runs,
   * lower-cased, joined by one hyphen.
   */
  lemma {:induction false} GenerateSlugTwoWords(a: string, b: string)
    requires forall c :: c in a ==> IsWordChar(c)
    requires forall c :: c in b ==> IsWordChar(c)
    ensures GenerateSlug(a + " " + b) == Lower(a) + "-" + Lower(b)
  {
    var la, lb := Lower(a), Lower(b);
    LowerAppend(a, ' ', b);
    assert Lower(a + " " + b) == la + [' '] + lb;
    LowerKeepsWords(a);
    LowerKeepsWords(b);
    SpaceBetweenWords(la, lb);
    HyphenBetweenWords(la, lb);
  }

  lemma {:induction false} LowerKeepsWords(s: string)
    requires forall c :: c in s ==> IsWordChar(c)
    ensures forall c :: c in Lower(s) ==> IsWordChar(c)
  {
    forall c | c in Lower(s) ensures IsWordChar(c) {
      var i :| 0 <= i < |s| && Lower(s)[i] == c;
      assert s[i] in s;
    }
  }

  lemma {:induction false} WordCharsAt(s: string)
    requires forall c :: c in s ==> IsWordChar(c)
    ensures forall i :: 0 <= i < |s| ==> IsWordChar(s[i])
  {
    forall i | 0 <= i < |s| ensures IsWordChar(s[i]) {
      assert s[i] in s;
    }
  }

  lemma {:induction false} SpaceBetweenWords(a: string, b: string)
    requires forall c :: c in a ==> IsWordChar(c)
    requires forall c :: c in b ==> IsWordChar(c)
    ensures ReplaceRuns(StripDisallowed(a + [' '] + b), IsSpace) == a + "-" + b
  {
    var spaced := a + [' '] + b;
    assert StripDisallowed(spaced) == spaced by {
      forall c | c in spaced ensures IsKept(c) {
        assert c in a || c == ' ' || c in b;
      }
      StripDisallowedFixed(spaced);
    }
    assert ReplaceRuns(b, IsSpace) == b by {
      WordCharsAt(b);
      ReplaceRunsFixed(b, IsSpace);
    }
    assert b == [] || !IsSpace(b[0]) by {
      if b != [] { assert b[0] in b; }
    }
    ReplaceRunsOne(a, ' ', b, IsSpace);
  }

  lemma {:induction false} HyphenBetweenWords(a: string, b: string)
    requires forall c :: c in a ==> IsWordChar(c)
    requires forall c :: c in b ==> IsWordChar(c)
    ensures Trim(ReplaceRuns(a + "-" + b, IsHyphen)) == a + "-" + b
  {
    var joined := a + "-" + b;
    OnlyHyphenAt(a, b);
    ReplaceRunsFixed(joined, IsHyphen);
    JoinedHasNoSpace(a, b);
    TrimWithoutSpaces(joined);
  }

  lemma {:induction false} OnlyHyphenAt(a: string, b: string)
    requires forall c :: c in a ==> IsWordChar(c)
    requires forall c :: c in b ==> IsWordChar(c)
    ensures forall i :: 0 <= i < |a + "-" + b| ==> ((a + "-" + b)[i] == '-' <==> i == |a|)
  {
    WordCharsAt(a);
    WordCharsAt(b);
    var joined := a + "-" + b;
    forall i | 0 <= i < |joined| ensures joined[i] == '-' <==> i == |a| {
      if i < |a| {
        assert joined[i] == a[i];
      } else if i > |a| {
        assert joined[i] == b[i - |a| - 1];
      }
    }
  }

  lemma {:induction false} JoinedHasNoSpace(a: string, b: string)
    requires forall c :: c in a ==> IsWordChar(c)
    requires forall c :: c in b ==> IsWordChar(c)
    ensures forall c :: c in a + "-" + b ==> !IsSpace(c)
  {
    forall c | c in a + "-" + b ensures !IsSpace(c) {
      if c != '-' {
        assert c in a || c in b;
        assert IsWordChar(c);
      }
    }
  }

  /** The seeded category "Web Development" has the slug "web-development" it is stored with. */
  lemma WebDevelopmentSlug()
    ensures GenerateSlug("Web Development") == "web-development"
  {
    WebDevelopmentWords();
    GenerateSlugTwoWords("Web", "Development");
  }

  lemma WebDevelopmentWords()
    ensures "Web Development" == "Web" + " " + "Development"
    ensures Lower("Web") == "web" && Lower("Development") == "development"
    ensures "web-development" == "web" + "-" + "development"
  {
    LowerWeb();
    LowerDevelopment();
  }

  lemma LowerWeb()
    ensures Lower("Web") == "web"
  {
    var w := Lower("Web");
    assert w[0] == 'w' && w[1] == 'e' && w[2] == 'b';
  }

  lemma LowerDevelopment()
    ensures Lower("Development") == "development"
  {
    var l := Lower("Development");
    assert forall i :: 0 <= i < |l| ==> l[i] == LowerChar("Development"[i]);
    assert forall i :: 0 <= i < |l| ==> l[i] == "development"[i];
  }
}
