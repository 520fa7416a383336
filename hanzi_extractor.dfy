/**
 * HanziExtractor.extract: every match of the pattern [\u4E00-\u9FFF]+ in the
 * input, joined with the empty separator, or null when nothing matched.
 *
 * Kotlin strings are sequences of UTF-16 code units; here a string is a
 * sequence of Unicode scalar values. The two agree on the pattern: a
 * character above U+FFFF is a surrogate pair in Kotlin (U+D800..U+DFFF) and a
 * single scalar above U+FFFF here, and neither lies in U+4E00..U+9FFF.
 */
module HanziExtractor {
  import opened Wrappers

  /** First and last code point of the CJK Unified Ideographs block. */
  const FirstIdeograph: int := 0x4E00
  const LastIdeograph: int := 0x9FFF

  /** The character class [\u4E00-\u9FFF]. */
  predicate IsHanzi(c: char) {
    FirstIdeograph <= c as int <= LastIdeograph
  }

  predicate AllHanzi(s: string) {
    forall i :: 0 <= i < |s| ==> IsHanzi(s[i])
  }

  predicate NoHanzi(s: string) {
    forall i :: 0 <= i < |s| ==> !IsHanzi(s[i])
  }

  /** Length of the longest prefix of `s` that is made of Hanzi only. */
  function RunLength(s: string): (n: nat)
    ensures n <= |s|
    ensures AllHanzi(s[..n])
    ensures n < |s| ==> !IsHanzi(s[n])
  {
    if s == [] || !IsHanzi(s[0]) then 0
    else
      var m := RunLength(s[1..]);
      assert s[..m + 1] == [s[0]] + s[1..][..m];
      m + 1
  }

  /**
   * The successive matches of `findAll` for [\u4E00-\u9FFF]+: leftmost,
   * greedy, hence the maximal non-empty runs of Hanzi from left to right.
   */
  function Matches(s: string): (ms: seq<string>)
    ensures forall k :: 0 <= k < |ms| ==> ms[k] != [] && AllHanzi(ms[k])
    decreases |s|
  {
    if s == [] then []
    else if !IsHanzi(s[0]) then Matches(s[1..])
    else
      var n := RunLength(s);
      [s[..n]] + Matches(s[n..])
  }

  /** `joinToString(separator = "") { it.value }`. */
  function Join(ms: seq<string>): string {
    if ms == [] then [] else ms[0] + Join(ms[1..])
  }

  /**
   * The in-range subsequence of `s`: every Hanzi of `s`, in order, and
   * nothing else. This is the reference the extractor is proved against.
   */
  function HanziOf(s: string): (r: string)
    ensures AllHanzi(r)
    ensures |r| <= |s|
    ensures r == [] <==> NoHanzi(s)
  {
    if s == [] then []
    else if IsHanzi(s[0]) then [s[0]] + HanziOf(s[1..])
    else HanziOf(s[1..])
  }

  /** `HanziExtractor.extract(text)`; `None` stands for Kotlin's null. */
  function Extract(text: string): (r: Option<string>)
    ensures r.None? <==> NoHanzi(text)
    ensures r.Some? ==> r.value == HanziOf(text) && r.value != []
  {
    JoinedMatchesAreHanzi(text);
    var hanzi := Join(Matches(text));
    if hanzi == [] then None else Some(hanzi)
  }

  /** A null result read as the empty string, as a caller concatenating results would. */
  function OrEmpty(r: Option<string>): string {
    r.GetOr([])
  }

  // ---------------------------------------------------------------------
  // The regex formulation agrees with the character filter.
  // ---------------------------------------------------------------------

  lemma {:induction false} HanziOfAppend(a: string, b: string)
    ensures HanziOf(a + b) == HanziOf(a) + HanziOf(b)
    decreases |a|
  {
    if a == [] {
      assert a + b == b;
    } else {
      assert (a + b)[1..] == a[1..] + b;
      HanziOfAppend(a[1..], b);
    }
  }

  lemma {:induction false} HanziOfAllHanzi(s: string)
    requires AllHanzi(s)
    ensures HanziOf(s) == s
  {
    if s != [] {
      HanziOfAllHanzi(s[1..]);
    }
  }

  /** Joining the maximal runs gives exactly the Hanzi subsequence. */
  lemma {:induction false} JoinedMatchesAreHanzi(s: string)
    ensures Join(Matches(s)) == HanziOf(s)
    decreases |s|
  {
    if s == [] {
    } else if !IsHanzi(s[0]) {
      JoinedMatchesAreHanzi(s[1..]);
    } else {
      var n := RunLength(s);
      JoinedMatchesAreHanzi(s[n..]);
      assert s == s[..n] + s[n..];
      HanziOfAppend(s[..n], s[n..]);
      HanziOfAllHanzi(s[..n]);
    }
  }

  // ---------------------------------------------------------------------
  // What the extractor promises.
  // ---------------------------------------------------------------------

  /** `t` occurs in `s` in order, possibly with gaps (greedy matching). */
  predicate IsSubsequence(t: string, s: string)
    decreases |s|
  {
    if t == [] then true
    else if s == [] then false
    else if t[0] == s[0] then IsSubsequence(t[1..], s[1..])
    else IsSubsequence(t, s[1..])
  }

  /**
   * Order and multiplicity are kept and nothing is inserted: the result is a
   * subsequence of the input holding every Hanzi of the input as many times
   * as the input does, and no other character.
   */
  lemma {:induction false} HanziOfIsInRangeSubsequence(s: string)
    ensures IsSubsequence(HanziOf(s), s)
    ensures forall c :: multiset(HanziOf(s))[c] == if IsHanzi(c) then multiset(s)[c] else 0
  {
    if s != [] {
      HanziOfIsInRangeSubsequence(s[1..]);
      assert s == [s[0]] + s[1..];
      assert multiset(s) == multiset{s[0]} + multiset(s[1..]);
    }
  }

  /** A non-null result is exactly the in-range subsequence of the input. */
  lemma ExtractKeepsExactlyTheHanzi(text: string)
    requires Extract(text).Some?
    ensures AllHanzi(Extract(text).value)
    ensures IsSubsequence(Extract(text).value, text)
    ensures forall c :: multiset(Extract(text).value)[c] == if IsHanzi(c) then multiset(text)[c] else 0
    ensures |Extract(text).value| <= |text|
  {
    HanziOfIsInRangeSubsequence(text);
  }

  /** Text made only of Hanzi comes back unchanged. */
  lemma ExtractAllHanzi(text: string)
    requires text != [] && AllHanzi(text)
    ensures Extract(text) == Some(text)
  {
    HanziOfAllHanzi(text);
  }

  /** Extracting again from an extracted result changes nothing. */
  lemma ExtractIdempotent(text: string)
    requires Extract(text).Some?
    ensures Extract(Extract(text).value) == Extract(text)
  {
    ExtractAllHanzi(Extract(text).value);
  }

  /** Matches joined with no separator: extraction distributes over concatenation. */
  lemma ExtractAppend(a: string, b: string)
    ensures OrEmpty(Extract(a + b)) == OrEmpty(Extract(a)) + OrEmpty(Extract(b))
  {
    HanziOfAppend(a, b);
  }

  /** Two runs of Hanzi separated by text without Hanzi are joined with nothing between them. */
  lemma ExtractJoinsRunsAcrossGap(a: string, b: string, c: string)
    requires a != [] && AllHanzi(a) && NoHanzi(b) && AllHanzi(c)
    ensures Extract(a + b + c) == Some(a + c)
  {
    HanziOfAllHanzi(a);
    HanziOfAllHanzi(c);
    HanziOfAppend(a + b, c);
    HanziOfAppend(a, b);
    assert HanziOf(b) == [];
    assert HanziOf(a + b) == a;
    assert HanziOf(a + b + c) == a + c;
    assert IsHanzi((a + b + c)[0]);
  }

  /** HanziExtractorTest.shouldTakeHanziFromText. */
  lemma ExtractMixedText(text: string)
    requires text == "你好Pizza我爱你"
    ensures Extract(text) == Some("你好我爱你")
  {
    var hello, pizza, love := "你好", "Pizza", "我爱你";
    assert text == hello + pizza + love;
    ExtractJoinsRunsAcrossGap(hello, pizza, love);
    assert hello + love == "你好我爱你";
  }

  /** HanziExtractorTest.shouldNotTakeHanziFromText. */
  lemma ExtractNoHanzi(text: string)
    requires text == "Pizza123"
    ensures Extract(text) == None
  {
    assert NoHanzi(text);
  }
}
