/**
 * The text helpers of utils/helper.ts, on ASCII case mapping.
 *
 * `String.prototype.toLowerCase` and `toUpperCase` are modelled on the ASCII
 * letters only; every other character is mapped to itself.
 */
module Text {

  import opened Seqs

  /** ASCII lower-casing of one character. */
  function LowerChar(c: char): char
  {
    if 'A' <= c <= 'Z' then (c as int + 32) as char else c
  }

  /** ASCII upper-casing of one character. */
  function UpperChar(c: char): char
  {
    if 'a' <= c <= 'z' then (c as int - 32) as char else c
  }

  /** `s.toLowerCase()`: every character lower-cased, nothing added or removed. */
  function Lower(s: string): (r: string)
    ensures |r| == |s|
    ensures forall i :: 0 <= i < |s| ==> r[i] == LowerChar(s[i])
  {
    seq(|s|, i requires 0 <= i < |s| => LowerChar(s[i]))
  }

  /** The characters kept by the pattern `[a-z0-9]`. */
  predicate IsAlnum(c: char)
  {
    'a' <= c <= 'z' || '0' <= c <= '9'
  }

  /** `s.replace(/[^a-z0-9]/g, '')`: drop every character outside `[a-z0-9]`. */
  function Strip(s: string): (r: string)
    ensures |r| <= |s|
    ensures forall i :: 0 <= i < |r| ==> IsAlnum(r[i])
  {
    if s == [] then []
    else (if IsAlnum(s[0]) then [s[0]] else []) + Strip(s[1..])
  }

  /**
   * `normalizeStr`: lower-case, then strip. The result holds only `a-z` and
   * `0-9` and is never longer than the input.
   */
  function NormalizeStr(s: string): (r: string)
    ensures |r| <= |s|
    ensures forall i :: 0 <= i < |r| ==> IsAlnum(r[i])
  {
    Strip(Lower(s))
  }

  /** `s` begins with `p`. */
  predicate StartsWith(s: string, p: string)
  {
    |p| <= |s| && s[..|p|] == p
  }

  /** `hay.includes(needle)`: `needle` occurs in `hay` at some position. */
  predicate Contains(hay: string, needle: string)
    decreases |hay|
  {
    StartsWith(hay, needle) || (hay != [] && Contains(hay[1..], needle))
  }

  /** `s.split(c)[0]`: the part of `s` before the first `c`, or all of `s`. */
  function BeforeFirst(s: string, c: char): (r: string)
    ensures |r| <= |s| && r == s[..|r|]
    ensures c !in r
    ensures |r| < |s| ==> s[|r|] == c
  {
    if s == [] then []
    else if s[0] == c then []
    else [s[0]] + BeforeFirst(s[1..], c)
  }

  /** `capitalize`: the empty string stays empty; otherwise the first character upper-cased and the rest lower-cased. */
  function Capitalize(word: string): (r: string)
  {
    if word == [] then [] else [UpperChar(word[0])] + Lower(word[1..])
  }

  /**
   * `highlightMatch`. Only the early return for an empty search text is
   * modelled; the regular-expression replacement that follows it is the
   * parameter `markFirst`.
   */
  function HighlightMatch(searchText: string, text: string, markFirst: (string, string) -> string): (r: string)
    ensures searchText == [] ==> r == text
    ensures searchText != [] ==> r == markFirst(searchText, text)
  {
    if searchText == [] then text else markFirst(searchText, text)
  }

  // ---------------------------------------------------------------------------
  // Properties of normalizeStr

  /** Stripping a string that holds only `[a-z0-9]` changes nothing. */
  lemma {:induction false} StripAlnum(s: string)
    requires forall i :: 0 <= i < |s| ==> IsAlnum(s[i])
    ensures Strip(s) == s
  {
    if s != [] {
      StripAlnum(s[1..]);
    }
  }

  /** `normalizeStr` is idempotent. */
  lemma NormalizeIdempotent(s: string)
    ensures NormalizeStr(NormalizeStr(s)) == NormalizeStr(s)
  {
    var n := NormalizeStr(s);
    assert Lower(n) == n;
    StripAlnum(n);
  }

  /** Stripping keeps the order of the characters it keeps. */
  lemma {:induction false} StripIsSubsequence(s: string)
    ensures IsSubseq(Strip(s), s)
  {
    if s != [] {
      StripIsSubsequence(s[1..]);
      var r := Strip(s);
      if IsAlnum(s[0]) {
        assert r == [s[0]] + Strip(s[1..]);
        assert r[0] == s[0] && r[1..] == Strip(s[1..]);
      } else {
        assert r == Strip(s[1..]);
      }
    }
  }

  /**
   * Stripping keeps each `[a-z0-9]` character as often as the input holds it,
   * and no other character.
   */
  lemma {:induction false} StripCounts(s: string)
    ensures forall c :: multiset(Strip(s))[c] == if IsAlnum(c) then multiset(s)[c] else 0
  {
    if s != [] {
      StripCounts(s[1..]);
      assert s == [s[0]] + s[1..];
      assert multiset(s) == multiset([s[0]]) + multiset(s[1..]);
    }
  }

  /** `normalizeStr(s)` is the in-order subsequence of `lowercase(s)` made of its letters and digits. */
  lemma NormalizeIsAlnumSubsequence(s: string)
    ensures IsSubseq(NormalizeStr(s), Lower(s))
    ensures forall c :: multiset(NormalizeStr(s))[c] == if IsAlnum(c) then multiset(Lower(s))[c] else 0
  {
    StripIsSubsequence(Lower(s));
    StripCounts(Lower(s));
  }

  /** Every string contains the empty string: an empty query matches everything. */
  lemma ContainsEmpty(hay: string)
    ensures Contains(hay, [])
  {
    assert StartsWith(hay, []);
  }

  // ---------------------------------------------------------------------------
  // Properties of capitalize

  lemma LowerChars(s: string)
    ensures forall i :: 0 <= i < |s| ==> UpperChar(LowerChar(s[i])) == UpperChar(s[i])
    ensures Lower(Lower(s)) == Lower(s)
  {
  }

  /** `capitalize` keeps the length, upper-cases the first character and lower-cases the rest. */
  lemma CapitalizeShape(word: string)
    ensures |Capitalize(word)| == |word|
    ensures Capitalize(word) == [] <==> word == []
    ensures word != [] ==> Capitalize(word)[0] == UpperChar(word[0])
    ensures forall i :: 0 < i < |word| ==> Capitalize(word)[i] == LowerChar(word[i])
  {
  }

  /** `capitalize` ignores the case of its input and is idempotent. */
  lemma CapitalizeIgnoresCase(word: string)
    ensures Capitalize(Lower(word)) == Capitalize(word)
    ensures Capitalize(Capitalize(word)) == Capitalize(word)
  {
    if word != [] {
      LowerChars(word);
      assert Lower(word)[1..] == Lower(word[1..]);
      var c := Capitalize(word);
      assert c[1..] == Lower(word[1..]);
      LowerChars(word[1..]);
    }
  }

  /** The cases of utils/__test__/helper.spec.ts. */
  lemma CapitalizeExamples()
    ensures Capitalize("hello") == "Hello"
    ensures Capitalize("HELLO") == "Hello"
    ensures Capitalize("hELLo") == "Hello"
    ensures Capitalize("") == ""
  {
  }
}
