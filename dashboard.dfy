/**
 * The teacher's dashboard: the list of category tabs built from the stored
 * tests, the tests each tab shows, and the link shared with students.
 */
module Dashboard {
  import opened CreateTest

  /** The label of the tab that shows every test. */
  const AllTab: string := "Všechny"

  /** `t.category || 'Nekategorizováno'`: an empty category falls back to the default. */
  function EffectiveCategory(t: AppTest): (c: string)
    ensures c != ""
    ensures t.category != "" ==> c == t.category
  {
    if t.category == "" then DefaultCategory else t.category
  }

  /** The effective category of each test, in list order. */
  function EffectiveCategories(tests: seq<AppTest>): (cs: seq<string>)
    ensures |cs| == |tests|
    ensures forall i :: 0 <= i < |tests| ==> cs[i] == EffectiveCategory(tests[i])
  {
    if tests == [] then [] else [EffectiveCategory(tests[0])] + EffectiveCategories(tests[1..])
  }

  /** The index of the first occurrence of `x` in `xs` (`|xs|` when absent). */
  function Position(xs: seq<string>, x: string): (p: nat)
    ensures p <= |xs|
    ensures p < |xs| <==> x in xs
    ensures p < |xs| ==> xs[p] == x
    ensures forall k :: 0 <= k < p ==> xs[k] != x
  {
    if xs == [] then 0 else if xs[0] == x then 0 else 1 + Position(xs[1..], x)
  }

  /** No entry occurs twice. */
  predicate Distinct(xs: seq<string>)
  {
    forall i, j :: 0 <= i < j < |xs| ==> xs[i] != xs[j]
  }

  /**
   * `Array.from(new Set(xs))`: each value once, in the order of its first
   * occurrence.
   */
  function Unique(xs: seq<string>): (u: seq<string>)
    ensures |u| <= |xs|
    ensures forall x :: x in u <==> x in xs
  {
    if xs == [] then []
    else
      var before := Unique(xs[..|xs| - 1]);
      var last := xs[|xs| - 1];
      assert forall x :: x in xs <==> x in xs[..|xs| - 1] || x == last by {
        assert xs == xs[..|xs| - 1] + [last];
      }
      if last in before then before else before + [last]
  }

  /** The list `new Set` gives holds no value twice. */
  lemma {:induction false} UniqueDistinct(xs: seq<string>)
    ensures Distinct(Unique(xs))
    decreases |xs|
  {
    if xs != [] {
      UniqueDistinct(xs[..|xs| - 1]);
    }
  }

  /** The first occurrence in a prefix is the first occurrence in the whole list. */
  lemma PositionInPrefix(xs: seq<string>, n: nat, x: string)
    requires n <= |xs| && x in xs[..n]
    ensures Position(xs, x) == Position(xs[..n], x)
  {
    var p := Position(xs[..n], x);
    assert xs[p] == x;
    assert forall k :: 0 <= k < p ==> xs[k] == xs[..n][k];
  }

  /** The values of the list `new Set` gives come in the order of their first occurrences. */
  lemma {:induction false} UniqueOrdered(xs: seq<string>)
    ensures forall i, j :: 0 <= i < j < |Unique(xs)| ==> Position(xs, Unique(xs)[i]) < Position(xs, Unique(xs)[j])
    decreases |xs|
  {
    if xs != [] {
      var n := |xs| - 1;
      var pre := xs[..n];
      var before := Unique(pre);
      var last := xs[n];
      UniqueOrdered(pre);
      var u := Unique(xs);
      forall i, j | 0 <= i < j < |u| ensures Position(xs, u[i]) < Position(xs, u[j]) {
        assert u[i] == before[i] && before[i] in pre;
        PositionInPrefix(xs, n, before[i]);
        if j < |before| {
          assert u[j] == before[j] && before[j] in pre;
          PositionInPrefix(xs, n, before[j]);
          assert Position(pre, before[i]) < Position(pre, before[j]);
        } else {
          assert u[j] == last && last !in before;
          LastPosition(xs);
        }
      }
    }
  }

  /** A value absent from all but the last entry first occurs at the end. */
  lemma LastPosition(xs: seq<string>)
    requires xs != [] && xs[|xs| - 1] !in xs[..|xs| - 1]
    ensures Position(xs, xs[|xs| - 1]) == |xs| - 1
  {
    var n := |xs| - 1;
    assert forall k :: 0 <= k < n ==> xs[k] == xs[..n][k];
  }

  /** `categories`: the all-tests tab, then each effective category once, in order of first appearance. */
  function Categories(tests: seq<AppTest>): (cats: seq<string>)
    ensures |cats| >= 1 && cats[0] == AllTab
  {
    [AllTab] + Unique(EffectiveCategories(tests))
  }

  /** Every test's effective category has a tab. */
  lemma CategoriesCoverTests(tests: seq<AppTest>, i: nat)
    requires i < |tests|
    ensures EffectiveCategory(tests[i]) in Categories(tests)[1..]
  {
    var cs := EffectiveCategories(tests);
    assert cs[i] in cs;
    assert Categories(tests)[1..] == Unique(cs);
  }

  /** Every tab after the first is the effective category of some test. */
  lemma CategoriesComeFromTests(tests: seq<AppTest>, k: nat)
    requires 1 <= k < |Categories(tests)|
    ensures exists i :: 0 <= i < |tests| && EffectiveCategory(tests[i]) == Categories(tests)[k]
  {
    var cs := EffectiveCategories(tests);
    assert Categories(tests)[k] == Unique(cs)[k - 1];
    assert Categories(tests)[k] in cs;
  }

  /** The tabs after the first are pairwise distinct and ordered by the first test that carries them. */
  lemma CategoriesDistinctOrdered(tests: seq<AppTest>)
    ensures Distinct(Categories(tests)[1..])
    ensures var cats := Categories(tests); var cs := EffectiveCategories(tests);
      forall i, j :: 1 <= i < j < |cats| ==> Position(cs, cats[i]) < Position(cs, cats[j])
  {
    var cs := EffectiveCategories(tests);
    var cats := Categories(tests);
    assert cats[1..] == Unique(cs);
    UniqueDistinct(cs);
    UniqueOrdered(cs);
    forall i, j | 1 <= i < j < |cats| ensures Position(cs, cats[i]) < Position(cs, cats[j]) {
      assert cats[i] == Unique(cs)[i - 1] && cats[j] == Unique(cs)[j - 1];
    }
  }

  /** A test filed under the category "Všechny" itself yields a second tab of that name. */
  lemma AllTabCanRepeat(tests: seq<AppTest>, i: nat)
    requires i < |tests| && tests[i].category == AllTab
    ensures exists k :: 1 <= k < |Categories(tests)| && Categories(tests)[k] == AllTab
  {
    CategoriesCoverTests(tests, i);
    var cats := Categories(tests);
    var k :| 0 <= k < |cats[1..]| && cats[1..][k] == AllTab;
    assert cats[k + 1] == AllTab;
  }

  /** The tests whose effective category is `category`, in list order. */
  function InCategory(tests: seq<AppTest>, category: string): (r: seq<AppTest>)
    ensures |r| <= |tests|
    ensures forall t :: t in r <==> t in tests && EffectiveCategory(t) == category
  {
    if tests == [] then []
    else
      var rest := InCategory(tests[1..], category);
      assert forall t :: t in tests <==> t == tests[0] || t in tests[1..];
      if EffectiveCategory(tests[0]) == category then [tests[0]] + rest else rest
  }

  /** The tests a tab shows: all of them on the all-tests tab, else those of its category. */
  function TabTests(tests: seq<AppTest>, tab: string): (shown: seq<AppTest>)
    ensures tab == AllTab ==> shown == tests
    ensures tab != AllTab ==> forall t :: t in shown <==> t in tests && EffectiveCategory(t) == tab
  {
    if tab == AllTab then tests else InCategory(tests, tab)
  }

  /**
   * Filtering keeps the relative order: the tests of a category drawn from two
   * consecutive parts of the list are those of the first part, then those of
   * the second.
   */
  lemma {:induction false} InCategoryAppend(a: seq<AppTest>, b: seq<AppTest>, category: string)
    ensures InCategory(a + b, category) == InCategory(a, category) + InCategory(b, category)
    decreases |a|
  {
    if a != [] {
      assert (a + b)[1..] == a[1..] + b;
      InCategoryAppend(a[1..], b, category);
    } else {
      assert a + b == b;
    }
  }

  /** A tab never shows a test more often than the list holds it. */
  lemma {:induction false} InCategoryCount(tests: seq<AppTest>, category: string, t: AppTest)
    ensures multiset(InCategory(tests, category))[t] == (if EffectiveCategory(t) == category then multiset(tests)[t] else 0)
    decreases |tests|
  {
    if tests != [] {
      var rest := InCategory(tests[1..], category);
      InCategoryCount(tests[1..], category, t);
      assert tests == [tests[0]] + tests[1..];
      assert multiset(tests) == multiset([tests[0]]) + multiset(tests[1..]);
      if EffectiveCategory(tests[0]) == category {
        assert InCategory(tests, category) == [tests[0]] + rest;
        assert multiset(InCategory(tests, category)) == multiset([tests[0]]) + multiset(rest);
      } else {
        assert InCategory(tests, category) == rest;
      }
    }
  }

  /** The link a student opens: `${origin}/test/${id}/take`. */
  function ShareLink(origin: string, id: string): (link: string)
    ensures |link| == |origin| + |id| + 11
    ensures link[..|origin|] == origin && link[|origin| + 6..|origin| + 6 + |id|] == id
  {
    origin + "/test/" + id + "/take"
  }

  /** Different tests of one site get different links: the id can be read back from the link. */
  lemma ShareLinkInjective(origin: string, a: string, b: string)
    requires ShareLink(origin, a) == ShareLink(origin, b)
    ensures a == b
  {
    var la := ShareLink(origin, a);
    assert |a| == |b|;
    assert a == la[|origin| + 6..|origin| + 6 + |a|];
  }
}
