/**
 * The logic of SettingsModeView.kt: the list of translation languages
 * offered, the name shown for the chosen language, and the label of a
 * Chinese variant.
 */
module SettingsModeView {
  import opened Wrappers

  /** The stored values of the Chinese-variant setting (AppSettingsStore.kt). */
  const TraditionalChinese: string := "traditional_chinese"
  const SimplifiedChinese: string := "simplified_chinese"

  /** A `java.util.Locale` seen through its language code and its display name. */
  datatype Locale = Locale(language: string, displayLanguage: string)

  /**
   * Kotlin's `Char.isWhitespace()` on the JVM: `Character.isWhitespace` or
   * `Character.isSpaceChar`, that is the controls U+0009..U+000D and
   * U+001C..U+001F and the space, line and paragraph separators.
   */
  predicate IsWhitespace(c: char) {
    var n := c as int;
    || 0x09 <= n <= 0x0D || 0x1C <= n <= 0x20
    || n == 0xA0 || n == 0x1680 || 0x2000 <= n <= 0x200A
    || n == 0x2028 || n == 0x2029 || n == 0x202F || n == 0x205F || n == 0x3000
  }

  /** `String.isBlank()`: empty or whitespace only. */
  predicate IsBlank(s: string) {
    forall i :: 0 <= i < |s| ==> IsWhitespace(s[i])
  }

  // ---------------------------------------------------------------------
  // Kotlin collection helpers.
  // ---------------------------------------------------------------------

  /** `indexOfFirst`: the position of the first element satisfying `p`, if any. */
  function FindIndex<T>(xs: seq<T>, p: T -> bool): (r: Option<nat>)
    ensures r.Some? ==> r.value < |xs| && p(xs[r.value]) && forall j :: 0 <= j < r.value ==> !p(xs[j])
    ensures r.None? ==> forall j :: 0 <= j < |xs| ==> !p(xs[j])
  {
    if xs == [] then None
    else if p(xs[0]) then Some(0)
    else
      match FindIndex(xs[1..], p)
      case None => None
      case Some(k) => Some(k + 1)
  }

  /** `find`: the first element satisfying `p`, or null. */
  function Find<T>(xs: seq<T>, p: T -> bool): Option<T> {
    match FindIndex(xs, p)
    case None => None
    case Some(k) => Some(xs[k])
  }

  lemma FindCons<T>(xs: seq<T>, p: T -> bool)
    requires xs != []
    ensures Find(xs, p) == if p(xs[0]) then Some(xs[0]) else Find(xs[1..], p)
  {
    if !p(xs[0]) {
      match FindIndex(xs[1..], p)
      case None =>
      case Some(k) => assert xs[1..][k] == xs[k + 1];
    }
  }

  /** Kotlin's `String.compareTo(other) <= 0`: lexicographic by character, a prefix first. */
  predicate LessEq(a: string, b: string) {
    a == [] || (b != [] && (a[0] < b[0] || (a[0] == b[0] && LessEq(a[1..], b[1..]))))
  }

  lemma {:induction false} LessEqTotal(a: string, b: string)
    ensures LessEq(a, b) || LessEq(b, a)
  {
    if a != [] && b != [] && a[0] == b[0] {
      LessEqTotal(a[1..], b[1..]);
    }
  }

  lemma {:induction false} LessEqTransitive(a: string, b: string, c: string)
    requires LessEq(a, b) && LessEq(b, c)
    ensures LessEq(a, c)
  {
    if a != [] && a[0] == b[0] && b[0] == c[0] {
      LessEqTransitive(a[1..], b[1..], c[1..]);
    }
  }

  // ---------------------------------------------------------------------
  // The language list.
  // ---------------------------------------------------------------------

  /** `filter { it.displayLanguage.isNotBlank() }` */
  function NonBlank(ls: seq<Locale>): (r: seq<Locale>)
    ensures forall k :: 0 <= k < |r| ==> !IsBlank(r[k].displayLanguage)
    ensures forall l :: l in r <==> l in ls && !IsBlank(l.displayLanguage)
  {
    if ls == [] then []
    else if IsBlank(ls[0].displayLanguage) then NonBlank(ls[1..])
    else [ls[0]] + NonBlank(ls[1..])
  }

  predicate HasDisplayLanguage(ls: seq<Locale>, name: string) {
    exists k :: 0 <= k < |ls| && ls[k].displayLanguage == name
  }

  /** `{ it.displayLanguage == name }` */
  function Named(name: string): Locale -> bool {
    (l: Locale) => l.displayLanguage == name
  }

  /** The first locale of `ls` whose display name is `name`, or null. */
  function FirstNamed(ls: seq<Locale>, name: string): Option<Locale> {
    Find(ls, Named(name))
  }

  lemma FirstNamedCons(ls: seq<Locale>, name: string)
    requires ls != []
    ensures FirstNamed(ls, name) == if ls[0].displayLanguage == name then Some(ls[0]) else FirstNamed(ls[1..], name)
  {
    FindCons(ls, Named(name));
  }

  predicate DistinctNames(ls: seq<Locale>) {
    forall i, j :: 0 <= i < j < |ls| ==> ls[i].displayLanguage != ls[j].displayLanguage
  }

  /**
   * `distinctBy { it.displayLanguage }`, having already seen the names in
   * `seen`: each name is kept at its first occurrence and never again.
   */
  function DistinctFrom(ls: seq<Locale>, seen: set<string>): seq<Locale> {
    if ls == [] then []
    else if ls[0].displayLanguage in seen then DistinctFrom(ls[1..], seen)
    else [ls[0]] + DistinctFrom(ls[1..], seen + {ls[0].displayLanguage})
  }

  /** What is kept has a name not seen before and is the first locale under that name. */
  lemma {:induction false} DistinctFromKeepsFirst(ls: seq<Locale>, seen: set<string>)
    ensures forall k :: 0 <= k < |DistinctFrom(ls, seen)| ==>
      var x := DistinctFrom(ls, seen)[k];
      x.displayLanguage !in seen && FirstNamed(ls, x.displayLanguage) == Some(x)
  {
    if ls != [] {
      var name := ls[0].displayLanguage;
      var r := DistinctFrom(ls, seen);
      if name in seen {
        DistinctFromKeepsFirst(ls[1..], seen);
        assert r == DistinctFrom(ls[1..], seen);
        forall k | 0 <= k < |r|
          ensures r[k].displayLanguage !in seen && FirstNamed(ls, r[k].displayLanguage) == Some(r[k])
        {
          FirstNamedCons(ls, r[k].displayLanguage);
        }
      } else {
        var rest := DistinctFrom(ls[1..], seen + {name});
        DistinctFromKeepsFirst(ls[1..], seen + {name});
        assert r == [ls[0]] + rest;
        forall k | 0 <= k < |r|
          ensures r[k].displayLanguage !in seen && FirstNamed(ls, r[k].displayLanguage) == Some(r[k])
        {
          FirstNamedCons(ls, r[k].displayLanguage);
          if k > 0 {
            assert r[k] == rest[k - 1];
          }
        }
      }
    }
  }

  /** No two kept locales share a name. */
  lemma {:induction false} DistinctFromDistinctNames(ls: seq<Locale>, seen: set<string>)
    ensures DistinctNames(DistinctFrom(ls, seen))
  {
    if ls != [] {
      var name := ls[0].displayLanguage;
      if name in seen {
        DistinctFromDistinctNames(ls[1..], seen);
      } else {
        var rest := DistinctFrom(ls[1..], seen + {name});
        var r := [ls[0]] + rest;
        DistinctFromDistinctNames(ls[1..], seen + {name});
        DistinctFromKeepsFirst(ls[1..], seen + {name});
        forall k, m | 0 <= k < m < |r|
          ensures r[k].displayLanguage != r[m].displayLanguage
        {
          assert r[m] == rest[m - 1];
          if k > 0 {
            assert r[k] == rest[k - 1];
          }
        }
      }
    }
  }

  /** Every name of the input was seen before or is kept. */
  lemma {:induction false} DistinctFromCovers(ls: seq<Locale>, seen: set<string>)
    ensures forall j :: 0 <= j < |ls| ==>
      ls[j].displayLanguage in seen || HasDisplayLanguage(DistinctFrom(ls, seen), ls[j].displayLanguage)
  {
    if ls != [] {
      var name := ls[0].displayLanguage;
      var r := DistinctFrom(ls, seen);
      if name in seen {
        DistinctFromCovers(ls[1..], seen);
        forall j | 0 < j < |ls|
          ensures ls[j].displayLanguage in seen || HasDisplayLanguage(r, ls[j].displayLanguage)
        {
          assert ls[j] == ls[1..][j - 1];
        }
      } else {
        var rest := DistinctFrom(ls[1..], seen + {name});
        DistinctFromCovers(ls[1..], seen + {name});
        assert r == [ls[0]] + rest;
        forall j | 0 <= j < |ls| && ls[j].displayLanguage !in seen
          ensures HasDisplayLanguage(r, ls[j].displayLanguage)
        {
          if ls[j].displayLanguage == name {
            assert r[0] == ls[0];
          } else {
            assert ls[1..][j - 1] == ls[j];
            var k :| 0 <= k < |rest| && rest[k].displayLanguage == ls[j].displayLanguage;
            assert r[k + 1] == rest[k];
          }
        }
      }
    }
  }

  function DistinctByDisplayLanguage(ls: seq<Locale>): seq<Locale> {
    DistinctFrom(ls, {})
  }

  predicate Sorted(ls: seq<Locale>) {
    forall i, j :: 0 <= i < j < |ls| ==> LessEq(ls[i].displayLanguage, ls[j].displayLanguage)
  }

  lemma SortedPrepend(x: Locale, rest: seq<Locale>)
    requires Sorted(rest)
    requires forall j :: 0 <= j < |rest| ==> LessEq(x.displayLanguage, rest[j].displayLanguage)
    ensures Sorted([x] + rest)
  {
    var r := [x] + rest;
    forall i, j | 0 <= i < j < |r|
      ensures LessEq(r[i].displayLanguage, r[j].displayLanguage)
    {
      assert r[j] == rest[j - 1];
    }
  }

  /** A name no greater than the head of a sorted list is no greater than any of it. */
  lemma BelowHead(x: Locale, ls: seq<Locale>)
    requires Sorted(ls) && ls != [] && LessEq(x.displayLanguage, ls[0].displayLanguage)
    ensures forall j :: 0 <= j < |ls| ==> LessEq(x.displayLanguage, ls[j].displayLanguage)
  {
    forall j | 0 < j < |ls|
      ensures LessEq(x.displayLanguage, ls[j].displayLanguage)
    {
      LessEqTransitive(x.displayLanguage, ls[0].displayLanguage, ls[j].displayLanguage);
    }
  }

  /** Every element of `rest` is `l` or an element of `ls`, all of which are above `x`. */
  lemma AboveAll(x: Locale, l: Locale, ls: seq<Locale>, rest: seq<Locale>)
    requires multiset(rest) == multiset(ls) + multiset{l}
    requires LessEq(x.displayLanguage, l.displayLanguage)
    requires forall j :: 0 <= j < |ls| ==> LessEq(x.displayLanguage, ls[j].displayLanguage)
    ensures forall j :: 0 <= j < |rest| ==> LessEq(x.displayLanguage, rest[j].displayLanguage)
  {
    forall j | 0 <= j < |rest|
      ensures LessEq(x.displayLanguage, rest[j].displayLanguage)
    {
      assert rest[j] in multiset(rest);
      if rest[j] != l {
        assert rest[j] in multiset(ls);
        var k :| 0 <= k < |ls| && ls[k] == rest[j];
      }
    }
  }

  /** Places `l` before the first element whose name is not smaller, keeping equal names in input order. */
  function Insert(l: Locale, ls: seq<Locale>): (r: seq<Locale>)
    requires Sorted(ls)
    ensures Sorted(r)
    ensures multiset(r) == multiset(ls) + multiset{l}
  {
    if ls == [] then [l]
    else if LessEq(l.displayLanguage, ls[0].displayLanguage) then
      BelowHead(l, ls);
      SortedPrepend(l, ls);
      [l] + ls
    else
      assert Sorted(ls[1..]);
      var rest := Insert(l, ls[1..]);
      LessEqTotal(l.displayLanguage, ls[0].displayLanguage);
      assert forall j :: 0 <= j < |ls[1..]| ==> ls[1..][j] == ls[j + 1];
      AboveAll(ls[0], l, ls[1..], rest);
      SortedPrepend(ls[0], rest);
      assert ls == [ls[0]] + ls[1..];
      [ls[0]] + rest
  }

  /** `sortedBy { it.displayLanguage }`: a stable sort on the display name. */
  function SortedByDisplayLanguage(ls: seq<Locale>): (r: seq<Locale>)
    ensures Sorted(r)
    ensures multiset(r) == multiset(ls)
  {
    if ls == [] then []
    else
      assert ls == [ls[0]] + ls[1..];
      Insert(ls[0], SortedByDisplayLanguage(ls[1..]))
  }

  /** `allLanguages`, from the locales the platform makes available. */
  function AllLanguages(available: seq<Locale>): seq<Locale> {
    SortedByDisplayLanguage(DistinctByDisplayLanguage(NonBlank(available)))
  }

  lemma {:induction false} TwoOccurrences<T>(s: seq<T>, x: T)
    requires multiset(s)[x] >= 2
    ensures exists p, q :: 0 <= p < q < |s| && s[p] == x && s[q] == x
  {
    assert s == [s[0]] + s[1..];
    if s[0] == x {
      assert x in multiset(s[1..]);
      var q :| 0 <= q < |s[1..]| && s[1..][q] == x;
      assert s[q + 1] == x;
    } else {
      TwoOccurrences(s[1..], x);
      var p, q :| 0 <= p < q < |s[1..]| && s[1..][p] == x && s[1..][q] == x;
      assert s[p + 1] == x && s[q + 1] == x;
    }
  }

  /** Reordering a list cannot make two of its entries share a name. */
  lemma DistinctNamesPermutation(a: seq<Locale>, b: seq<Locale>)
    requires multiset(a) == multiset(b)
    requires DistinctNames(a)
    ensures DistinctNames(b)
  {
    forall i, j | 0 <= i < j < |b|
      ensures b[i].displayLanguage != b[j].displayLanguage
    {
      if b[i].displayLanguage == b[j].displayLanguage {
        assert b[i] in multiset(a) && b[j] in multiset(a);
        var p :| 0 <= p < |a| && a[p] == b[i];
        var q :| 0 <= q < |a| && a[q] == b[j];
        assert p == q;
        assert b == b[..j] + b[j..];
        assert b[i] in multiset(b[..j]) && b[i] in multiset(b[j..]);
        assert multiset(a)[a[p]] >= 2;
        TwoOccurrences(a, a[p]);
        assert false;
      }
    }
  }


  /** Dropping blank names does not change which locale comes first under a non-blank name. */
  lemma {:induction false} FirstNamedNonBlank(ls: seq<Locale>, name: string)
    requires !IsBlank(name)
    ensures FirstNamed(NonBlank(ls), name) == FirstNamed(ls, name)
  {
    if ls != [] {
      FirstNamedNonBlank(ls[1..], name);
      FindCons(ls, Named(name));
      if IsBlank(ls[0].displayLanguage) {
        assert ls[0].displayLanguage != name;
        assert NonBlank(ls) == NonBlank(ls[1..]);
      } else {
        var nb := NonBlank(ls);
        assert nb == [ls[0]] + NonBlank(ls[1..]);
        assert nb[0] == ls[0] && nb[1..] == NonBlank(ls[1..]);
        FindCons(nb, Named(name));
      }
    }
  }

  /** No entry of the language list has a blank display name. */
  lemma AllLanguagesNotBlank(available: seq<Locale>)
    ensures forall k :: 0 <= k < |AllLanguages(available)| ==> !IsBlank(AllLanguages(available)[k].displayLanguage)
  {
    var r := AllLanguages(available);
    var d := DistinctByDisplayLanguage(NonBlank(available));
    DistinctFromKeepsFirst(NonBlank(available), {});
    forall k | 0 <= k < |r|
      ensures !IsBlank(r[k].displayLanguage)
    {
      assert r[k] in multiset(d);
      var m :| 0 <= m < |d| && d[m] == r[k];
      assert FirstNamed(NonBlank(available), d[m].displayLanguage) == Some(d[m]);
    }
  }

  /** No two entries of the language list share a display name. */
  lemma AllLanguagesDistinctNames(available: seq<Locale>)
    ensures DistinctNames(AllLanguages(available))
  {
    DistinctFromDistinctNames(NonBlank(available), {});
    DistinctNamesPermutation(DistinctByDisplayLanguage(NonBlank(available)), AllLanguages(available));
  }

  /** Each entry of the language list is the first available locale with its display name. */
  lemma AllLanguagesFirstOfEachName(available: seq<Locale>)
    ensures forall k :: 0 <= k < |AllLanguages(available)| ==>
      FirstNamed(available, AllLanguages(available)[k].displayLanguage) == Some(AllLanguages(available)[k])
  {
    var d := DistinctByDisplayLanguage(NonBlank(available));
    var r := AllLanguages(available);
    DistinctFromKeepsFirst(NonBlank(available), {});
    forall k | 0 <= k < |r|
      ensures FirstNamed(available, r[k].displayLanguage) == Some(r[k])
    {
      assert r[k] in multiset(d);
      var m :| 0 <= m < |d| && d[m] == r[k];
      assert FirstNamed(NonBlank(available), d[m].displayLanguage) == Some(d[m]);
      assert !IsBlank(d[m].displayLanguage) by {
        assert d[m] in NonBlank(available);
      }
      FirstNamedNonBlank(available, r[k].displayLanguage);
    }
  }

  lemma HasDisplayLanguagePermutation(a: seq<Locale>, b: seq<Locale>, name: string)
    requires multiset(a) == multiset(b)
    requires HasDisplayLanguage(a, name)
    ensures HasDisplayLanguage(b, name)
  {
    var m :| 0 <= m < |a| && a[m].displayLanguage == name;
    assert a[m] in multiset(b);
    var k :| 0 <= k < |b| && b[k] == a[m];
  }

  /** Every non-blank display name of an available locale has an entry in the language list. */
  lemma AllLanguagesCoverEveryName(available: seq<Locale>)
    ensures forall j :: 0 <= j < |available| && !IsBlank(available[j].displayLanguage) ==>
      HasDisplayLanguage(AllLanguages(available), available[j].displayLanguage)
  {
    var nb := NonBlank(available);
    var d := DistinctByDisplayLanguage(nb);
    DistinctFromCovers(nb, {});
    forall j | 0 <= j < |available| && !IsBlank(available[j].displayLanguage)
      ensures HasDisplayLanguage(AllLanguages(available), available[j].displayLanguage)
    {
      assert available[j] in nb;
      var i :| 0 <= i < |nb| && nb[i] == available[j];
      assert HasDisplayLanguage(d, nb[i].displayLanguage);
      HasDisplayLanguagePermutation(d, AllLanguages(available), nb[i].displayLanguage);
    }
  }

  // ---------------------------------------------------------------------
  // Lookups.
  // ---------------------------------------------------------------------

  /** `currentLanguageName`: the display name of the first locale whose code is `current`, else `current`. */
  function CurrentLanguageName(locales: seq<Locale>, current: string): (name: string)
    ensures (forall j :: 0 <= j < |locales| ==> locales[j].language != current) ==> name == current
    ensures forall i :: (0 <= i < |locales| && locales[i].language == current &&
      forall j :: 0 <= j < i ==> locales[j].language != current) ==> name == locales[i].displayLanguage
  {
    match Find(locales, (l: Locale) => l.language == current)
    case Some(l) => l.displayLanguage
    case None => current
  }

  /** `chineseTypeLabel`: the human-readable name of a stored Chinese variant. */
  function ChineseTypeLabel(value: string): (caption: string)
    ensures value == SimplifiedChinese <==> caption == "Simplified Chinese"
    ensures value == TraditionalChinese <==> caption == "Traditional Chinese"
    ensures value != SimplifiedChinese && value != TraditionalChinese <==> caption == "Unknown"
  {
    if value == SimplifiedChinese then "Simplified Chinese"
    else if value == TraditionalChinese then "Traditional Chinese"
    else "Unknown"
  }
}
