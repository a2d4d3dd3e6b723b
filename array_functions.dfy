/**
 * Fonctions_tableaux/exercise.php: keep the published articles, map them to
 * a normalized shape, sort that list by views (highest first, in place) and
 * fold the published articles into a summary.
 */
module ArrayFunctions {
  import opened Php
  import opened Slug

  /** One element of the $articles array; a missing 'published' key is Null. */
  datatype Entry = Entry(
    id: int, title: string, category: string, views: int, author: string,
    published: Value, tags: seq<string>)

  /** The array the array_map callback builds. */
  datatype Normalized = Normalized(id: int, slug: string, views: int, author: string, category: string)

  /** The array_reduce accumulator; by_category keeps its keys in first-seen order. */
  datatype Summary = Summary(count: int, viewsSum: int, byCategory: seq<(string, int)>)

  // ------------------------------------------------------------ filter

  /** `$a['published'] ?? false`, read as a boolean by array_filter. */
  predicate IsPublished(a: Entry)
  {
    ToBool(if a.published == Null then Bool(false) else a.published)
  }

  /** array_values(array_filter($articles, ...)) */
  function Published(s: seq<Entry>): (r: seq<Entry>)
    ensures |r| <= |s|
  {
    if s == [] then []
    else Published(s[..|s| - 1]) + (if IsPublished(s[|s| - 1]) then [s[|s| - 1]] else [])
  }

  /** An article is kept exactly when it is published; a missing flag counts as false. */
  lemma {:induction false} PublishedMembers(s: seq<Entry>)
    ensures forall x :: x in Published(s) <==> x in s && IsPublished(x)
    ensures forall x :: x in s && x.published == Null ==> x !in Published(s)
  {
    if s != [] {
      var init := s[..|s| - 1];
      PublishedMembers(init);
      assert s == init + [s[|s| - 1]];
    }
  }

  /**
   * The filter keeps order: filtering a concatenation filters each part,
   * so the result is the in-order subsequence of the published articles.
   */
  lemma {:induction false} PublishedAppend(s: seq<Entry>, t: seq<Entry>)
    ensures Published(s + t) == Published(s) + Published(t)
    decreases |t|
  {
    if t == [] {
      assert s + t == s;
    } else {
      var init, x := t[..|t| - 1], t[|t| - 1];
      var kept := if IsPublished(x) then [x] else [];
      PublishedAppend(s, init);
      assert t == init + [x];
      assert s + t == (s + init) + [x];
      PublishedSnoc(s + init, x);
      PublishedSnoc(init, x);
      calc {
        Published(s + t);
        Published(s + init) + kept;
        (Published(s) + Published(init)) + kept;
        Published(s) + (Published(init) + kept);
        Published(s) + Published(t);
      }
    }
  }

  lemma PublishedSnoc(s: seq<Entry>, x: Entry)
    ensures Published(s + [x]) == Published(s) + (if IsPublished(x) then [x] else [])
  {
    assert (s + [x])[..|s|] == s;
  }

  // ------------------------------------------------------------ map

  function Normalize(a: Entry): Normalized
  {
    Normalized(a.id, Slugify(a.title), a.views, a.author, a.category)
  }

  /** array_map over the published articles. */
  function NormalizeAll(p: seq<Entry>): (r: seq<Normalized>)
    ensures |r| == |p|
  {
    seq(|p|, i requires 0 <= i < |p| => Normalize(p[i]))
  }

  /**
   * One normalized entry per published article, at the same position,
   * carrying its id, views, author and category and a well-formed slug
   * of its title.
   */
  lemma NormalizedEntries(p: seq<Entry>, i: int)
    requires 0 <= i < |p|
    ensures var n := NormalizeAll(p)[i];
            && n.id == p[i].id && n.views == p[i].views && n.author == p[i].author
            && n.category == p[i].category
            && n.slug == Slugify(p[i].title) && IsSlug(n.slug)
  {
    SlugifyIsSlug(p[i].title);
  }

  // ------------------------------------------------------------ sort

  /** Views never increase along the list. */
  predicate NonIncreasing(t: seq<Normalized>)
  {
    forall i, j :: 0 <= i < j < |t| ==> t[i].views >= t[j].views
  }

  /** Put x after every element whose views are at least its own, scanning from the back. */
  function Insert(t: seq<Normalized>, x: Normalized): (r: seq<Normalized>)
    ensures |r| == |t| + 1
  {
    if t == [] || t[|t| - 1].views >= x.views then t + [x]
    else Insert(t[..|t| - 1], x) + [t[|t| - 1]]
  }

  /**
   * The order usort($normalized, fn($x, $y) => $y['views'] <=> $x['views'])
   * leaves: highest views first, equal views in their original order.
   */
  function SortDesc(s: seq<Normalized>): (r: seq<Normalized>)
    ensures |r| == |s|
  {
    if s == [] then [] else Insert(SortDesc(s[..|s| - 1]), s[|s| - 1])
  }

  /** The entries with exactly v views, in order. */
  function WithViews(t: seq<Normalized>, v: int): seq<Normalized>
  {
    if t == [] then []
    else WithViews(t[..|t| - 1], v) + (if t[|t| - 1].views == v then [t[|t| - 1]] else [])
  }

  /** Insert places x at the one position k whose left has views >= x's and whose right has fewer. */
  lemma {:induction false} InsertShape(t: seq<Normalized>, x: Normalized) returns (k: nat)
    ensures k <= |t|
    ensures Insert(t, x) == t[..k] + [x] + t[k..]
    ensures k == 0 || t[k - 1].views >= x.views
    ensures forall m :: k <= m < |t| ==> t[m].views < x.views
  {
    if t == [] || t[|t| - 1].views >= x.views {
      k := |t|;
      assert t[..k] == t && t[k..] == [];
    } else {
      var init := t[..|t| - 1];
      k := InsertShape(init, x);
      assert init[..k] == t[..k];
      assert init[k..] + [t[|t| - 1]] == t[k..];
    }
  }

  lemma InsertSorted(t: seq<Normalized>, x: Normalized)
    requires NonIncreasing(t)
    ensures NonIncreasing(Insert(t, x))
  {
    var k := InsertShape(t, x);
    var r := Insert(t, x);
    assert forall i :: 0 <= i < k ==> r[i] == t[i];
    assert r[k] == x;
    assert forall i :: k < i < |r| ==> r[i] == t[i - 1];
    forall i, j | 0 <= i < j < |r|
      ensures r[i].views >= r[j].views
    {
      if j < k || k < i {
      } else if i == k {
        assert j > k && r[j] == t[j - 1];
      } else if j == k {
        assert i < k && r[i] == t[i] && t[k - 1].views >= x.views;
      } else {
        assert r[i] == t[i] && r[j] == t[j - 1];
      }
    }
  }

  lemma InsertPermutes(t: seq<Normalized>, x: Normalized)
    ensures multiset(Insert(t, x)) == multiset(t) + multiset{x}
  {
    var k := InsertShape(t, x);
    assert t == t[..k] + t[k..];
  }

  lemma {:induction false} WithViewsAppend(a: seq<Normalized>, b: seq<Normalized>, v: int)
    ensures WithViews(a + b, v) == WithViews(a, v) + WithViews(b, v)
    decreases |b|
  {
    if b == [] {
      assert a + b == a;
    } else {
      var init := b[..|b| - 1];
      WithViewsAppend(a, init, v);
      assert (a + b)[..|a + b| - 1] == a + init;
    }
  }

  lemma {:induction false} WithViewsNone(t: seq<Normalized>, v: int)
    requires forall m :: 0 <= m < |t| ==> t[m].views < v
    ensures WithViews(t, v) == []
  {
    if t != [] {
      WithViewsNone(t[..|t| - 1], v);
    }
  }

  lemma InsertStable(t: seq<Normalized>, x: Normalized, v: int)
    ensures WithViews(Insert(t, x), v) == WithViews(t, v) + (if x.views == v then [x] else [])
  {
    var k := InsertShape(t, x);
    var pre, post := t[..k], t[k..];
    assert t == pre + post;
    WithViewsAppend(pre + [x], post, v);
    WithViewsAppend(pre, [x], v);
    WithViewsAppend(pre, post, v);
    assert WithViews([x], v) == WithViews([], v) + (if x.views == v then [x] else []);
    if x.views == v {
      WithViewsNone(post, v);
    }
  }

  /** The sort orders by views, highest first. */
  lemma {:induction false} SortDescSorted(s: seq<Normalized>)
    ensures NonIncreasing(SortDesc(s))
  {
    if s != [] {
      SortDescSorted(s[..|s| - 1]);
      InsertSorted(SortDesc(s[..|s| - 1]), s[|s| - 1]);
    }
  }

  /** The sort is a permutation of its input. */
  lemma {:induction false} SortDescPermutes(s: seq<Normalized>)
    ensures multiset(SortDesc(s)) == multiset(s)
  {
    if s != [] {
      var init := s[..|s| - 1];
      SortDescPermutes(init);
      InsertPermutes(SortDesc(init), s[|s| - 1]);
      assert s == init + [s[|s| - 1]];
    }
  }

  /** The sort is stable: entries with equal views keep their relative order. */
  lemma {:induction false} SortDescStable(s: seq<Normalized>, v: int)
    ensures WithViews(SortDesc(s), v) == WithViews(s, v)
  {
    if s != [] {
      SortDescStable(s[..|s| - 1], v);
      InsertStable(SortDesc(s[..|s| - 1]), s[|s| - 1], v);
    }
  }

  /** One step of the inner loop: x moves past an element with fewer views. */
  lemma InsertUnfold(t: seq<Normalized>, j: nat, x: Normalized)
    requires 0 < j <= |t| && t[j - 1].views < x.views
    ensures Insert(t[..j], x) + t[j..] == Insert(t[..j - 1], x) + t[j - 1..]
  {
    assert t[..j][..j - 1] == t[..j - 1];
    assert [t[j - 1]] + t[j..] == t[j - 1..];
  }

  /** Writing at the hole of p + [y] + q. */
  lemma SetHole(p: seq<Normalized>, y: Normalized, q: seq<Normalized>, x: Normalized)
    ensures (p + ([y] + q))[|p| := x] == p + ([x] + q)
  {
  }

  /** The array while the inner loop runs: the hole at j moves one place left. */
  lemma ShiftStep(t: seq<Normalized>, j: nat, rest: seq<Normalized>)
    requires 0 < j <= |t|
    ensures t[..j] + ([t[j - 1]] + (t[j..] + rest)) == t[..j - 1] + ([t[j - 1]] + (t[j - 1..] + rest))
  {
    assert t[..j] == t[..j - 1] + [t[j - 1]];
    assert t[j - 1..] == [t[j - 1]] + t[j..];
  }

  /** Where the inner loop stops, x goes in; the result is the insertion followed by the untouched part. */
  lemma InsertClose(t: seq<Normalized>, j: nat, x: Normalized, rest: seq<Normalized>)
    requires j <= |t| && (j == 0 || t[j - 1].views >= x.views)
    ensures t[..j] + ([x] + (t[j..] + rest)) == (Insert(t[..j], x) + t[j..]) + rest
  {
    assert Insert(t[..j], x) == t[..j] + [x];
  }

  lemma SortDescSnoc(s: seq<Normalized>, i: nat)
    requires i < |s|
    ensures SortDesc(s[..i + 1]) == Insert(SortDesc(s[..i]), s[i])
  {
    assert s[..i + 1][..i] == s[..i];
  }

  lemma SplitAt(p: seq<Normalized>, q: seq<Normalized>)
    requires q != []
    ensures (p + q)[..|p|] == p && (p + q)[|p|] == q[0] && (p + q)[|p| + 1..] == q[1..]
  {
  }

  /** Inserts a[i] into the sorted run a[..i], shifting the entries with fewer views right. */
  method InsertInto(a: array<Normalized>, i: int)
    requires 0 <= i < a.Length
    modifies a
    ensures a[..] == Insert(old(a[..i]), old(a[i])) + old(a[i + 1..])
  {
    var key := a[i];
    ghost var sorted, rest := a[..i], a[i + 1..];
    assert a[..] == sorted + ([a[i]] + rest);
    assert sorted[..i] == sorted && sorted[i..] == [];
    var j := i;
    while j > 0 && a[j - 1].views < key.views
      invariant 0 <= j <= i == |sorted|
      invariant a[..] == sorted[..j] + ([a[j]] + (sorted[j..] + rest))
      invariant Insert(sorted, key) == Insert(sorted[..j], key) + sorted[j..]
      decreases j
    {
      assert a[j - 1] == a[..][j - 1] == sorted[j - 1];
      InsertUnfold(sorted, j, key);
      ghost var before := a[..];
      SetHole(sorted[..j], a[j], sorted[j..] + rest, sorted[j - 1]);
      ShiftStep(sorted, j, rest);
      a[j] := a[j - 1];
      assert a[..] == before[j := sorted[j - 1]];
      j := j - 1;
    }
    assert j > 0 ==> a[j - 1] == a[..][j - 1] == sorted[j - 1];
    ghost var before := a[..];
    SetHole(sorted[..j], a[j], sorted[j..] + rest, key);
    a[j] := key;
    assert a[..] == before[j := key];
    InsertClose(sorted, j, key, rest);
  }

  /** usort($normalized, ...) as an insertion sort on the array in place. */
  method SortByViews(a: array<Normalized>)
    modifies a
    ensures a[..] == SortDesc(old(a[..]))
  {
    ghost var s := a[..];
    var i := 0;
    assert s[0..] == s;
    while i < a.Length
      invariant 0 <= i <= a.Length == |s|
      invariant a[..] == SortDesc(s[..i]) + s[i..]
    {
      SplitAt(SortDesc(s[..i]), s[i..]);
      InsertInto(a, i);
      SortDescSnoc(s, i);
      assert s[i..][1..] == s[i + 1..];
      i := i + 1;
    }
    assert s[..a.Length] == s;
  }

  // ------------------------------------------------------------ reduce

  /** `$acc['by_category'][$cat] ?? 0` */
  function CategoryCount(cats: seq<(string, int)>, c: string): int
  {
    if cats == [] then 0 else if cats[0].0 == c then cats[0].1 else CategoryCount(cats[1..], c)
  }

  /** `$acc['by_category'][$cat] = (... ?? 0) + 1` */
  function Bump(cats: seq<(string, int)>, c: string): seq<(string, int)>
  {
    if cats == [] then [(c, 1)]
    else if cats[0].0 == c then [(c, cats[0].1 + 1)] + cats[1..]
    else [cats[0]] + Bump(cats[1..], c)
  }

  /** The reduce callback. */
  function Accumulate(acc: Summary, a: Entry): Summary
  {
    Summary(acc.count + 1, acc.viewsSum + a.views, Bump(acc.byCategory, a.category))
  }

  /** array_reduce($published, ..., ['count'=>0, 'views_sum'=>0, 'by_category'=>[]]) */
  function Reduce(s: seq<Entry>): Summary
  {
    if s == [] then Summary(0, 0, [])
    else Accumulate(Reduce(s[..|s| - 1]), s[|s| - 1])
  }

  /** The total of the views, summed from the front. */
  function SumViews(s: seq<Entry>): int
  {
    if s == [] then 0 else s[0].views + SumViews(s[1..])
  }

  /** The number of articles in category c. */
  function InCategory(s: seq<Entry>, c: string): nat
  {
    if s == [] then 0 else (if s[0].category == c then 1 else 0) + InCategory(s[1..], c)
  }

  /** The sum of the per-category counts. */
  function Total(cats: seq<(string, int)>): int
  {
    if cats == [] then 0 else cats[0].1 + Total(cats[1..])
  }

  /** The categories that have an entry. */
  function KeySet(cats: seq<(string, int)>): set<string>
  {
    if cats == [] then {} else {cats[0].0} + KeySet(cats[1..])
  }

  /** No category has two entries. */
  predicate DistinctKeys(cats: seq<(string, int)>)
  {
    cats == [] || (cats[0].0 !in KeySet(cats[1..]) && DistinctKeys(cats[1..]))
  }

  lemma KeysCons(e: (string, int), rest: seq<(string, int)>)
    ensures KeySet([e] + rest) == {e.0} + KeySet(rest)
    ensures DistinctKeys([e] + rest) <==> e.0 !in KeySet(rest) && DistinctKeys(rest)
  {
    assert ([e] + rest)[1..] == rest;
  }

  /** Counting one more article in c: its count rises by one, the others stay, keys stay distinct. */
  lemma {:induction false} BumpSpec(cats: seq<(string, int)>, c: string)
    ensures forall c2 :: CategoryCount(Bump(cats, c), c2) == CategoryCount(cats, c2) + (if c2 == c then 1 else 0)
    ensures Total(Bump(cats, c)) == Total(cats) + 1
    ensures KeySet(Bump(cats, c)) == KeySet(cats) + {c}
    ensures DistinctKeys(cats) ==> DistinctKeys(Bump(cats, c))
  {
    if cats == [] {
      KeysCons((c, 1), []);
    } else {
      var rest := cats[1..];
      assert cats == [cats[0]] + rest;
      KeysCons(cats[0], rest);
      if cats[0].0 == c {
        KeysCons((c, cats[0].1 + 1), rest);
      } else {
        BumpSpec(rest, c);
        KeysCons(cats[0], Bump(rest, c));
      }
    }
  }

  lemma {:induction false} SumViewsAppend(s: seq<Entry>, x: Entry)
    ensures SumViews(s + [x]) == SumViews(s) + x.views
  {
    if s != [] {
      SumViewsAppend(s[1..], x);
      assert (s + [x])[1..] == s[1..] + [x];
    }
  }

  lemma {:induction false} InCategoryAppend(s: seq<Entry>, x: Entry, c: string)
    ensures InCategory(s + [x], c) == InCategory(s, c) + (if x.category == c then 1 else 0)
  {
    if s != [] {
      InCategoryAppend(s[1..], x, c);
      assert (s + [x])[1..] == s[1..] + [x];
    }
  }

  /**
   * The summary counts the articles, sums their views, and counts each
   * category exactly; the per-category counts sum to the count.
   */
  lemma {:induction false} ReduceSpec(s: seq<Entry>)
    ensures Reduce(s).count == |s|
    ensures Reduce(s).viewsSum == SumViews(s)
    ensures forall c :: CategoryCount(Reduce(s).byCategory, c) == InCategory(s, c)
    ensures Total(Reduce(s).byCategory) == |s|
    ensures DistinctKeys(Reduce(s).byCategory)
  {
    if s != [] {
      var init, x := s[..|s| - 1], s[|s| - 1];
      ReduceSpec(init);
      BumpSpec(Reduce(init).byCategory, x.category);
      assert s == init + [x];
      SumViewsAppend(init, x);
      forall c ensures CategoryCount(Reduce(s).byCategory, c) == InCategory(s, c) {
        InCategoryAppend(init, x, c);
      }
    }
  }

  // ------------------------------------------------------------ the exercise

  /** The script's three results from its $articles array. */
  method Exercise(articles: seq<Entry>) returns (normalized: array<Normalized>, summary: Summary)
    ensures fresh(normalized)
    ensures normalized[..] == SortDesc(NormalizeAll(Published(articles)))
    ensures summary == Reduce(Published(articles))
  {
    var published := Published(articles);
    var mapped := NormalizeAll(published);
    normalized := new Normalized[|mapped|](i requires 0 <= i < |mapped| => mapped[i]);
    assert normalized[..] == mapped;
    SortByViews(normalized);
    summary := Reduce(published);
  }

  // ------------------------------------------------------------ the sample data

  /** The exercise's four articles; the titles are left as parameters. */
  function Sample(t1: string, t2: string, t3: string, t4: string): seq<Entry>
  {
    [Entry(1, t1, "php", 120, "Amina", Bool(true), ["php", "laravel"]),
     Entry(2, t2, "php", 300, "Yassine", Bool(true), ["php"]),
     Entry(3, t3, "outils", 90, "Amina", Bool(false), ["composer", "php"]),
     Entry(4, t4, "laravel", 210, "Sara", Bool(true), ["laravel", "validation"])]
  }

  function Ids(t: seq<Normalized>): (r: seq<int>)
    ensures |r| == |t|
  {
    seq(|t|, i requires 0 <= i < |t| => t[i].id)
  }

  lemma ReduceSnoc(s: seq<Entry>, x: Entry)
    ensures Reduce(s + [x]) == Accumulate(Reduce(s), x)
  {
    assert (s + [x])[..|s|] == s;
  }

  lemma SortDescSnocSeq(s: seq<Normalized>, x: Normalized)
    ensures SortDesc(s + [x]) == Insert(SortDesc(s), x)
  {
    assert (s + [x])[..|s|] == s;
  }

  /** The published sample articles: the first, second and fourth. */
  lemma SamplePublished(t1: string, t2: string, t3: string, t4: string)
    ensures var s := Sample(t1, t2, t3, t4);
            Published(s) == [s[0], s[1], s[3]]
  {
    var s := Sample(t1, t2, t3, t4);
    var e1, e2, e3, e4 := s[0], s[1], s[2], s[3];
    assert s == [e1, e2, e3] + [e4];
    assert [e1, e2, e3] == [e1, e2] + [e3];
    assert [e1, e2] == [e1] + [e2];
    assert [e1] == [] + [e1];
    PublishedSnoc([], e1);
    PublishedSnoc([e1], e2);
    PublishedSnoc([e1, e2], e3);
    PublishedSnoc([e1, e2, e3], e4);
  }

  /** The summary of the sample: three articles, 630 views, php twice and laravel once. */
  lemma SampleSummary(t1: string, t2: string, t3: string, t4: string)
    ensures Reduce(Published(Sample(t1, t2, t3, t4))) == Summary(3, 630, [("php", 2), ("laravel", 1)])
  {
    var s := Sample(t1, t2, t3, t4);
    SamplePublished(t1, t2, t3, t4);
    var e1, e2, e4 := s[0], s[1], s[3];
    assert [e1, e2, e4] == [e1, e2] + [e4] && [e1, e2] == [e1] + [e2] && [e1] == [] + [e1];
    ReduceSnoc([], e1);
    ReduceSnoc([e1], e2);
    ReduceSnoc([e1, e2], e4);
    assert Bump([], "php") == [("php", 1)];
    assert Bump([("php", 1)], "php") == [("php", 2)];
    assert "php" != "laravel";
    assert Bump([("php", 2)], "laravel") == [("php", 2)] + Bump([], "laravel");
  }

  /** Sorting the sample by views gives the ids 2, 4, 1. */
  lemma SampleOrder(t1: string, t2: string, t3: string, t4: string)
    ensures Ids(SortDesc(NormalizeAll(Published(Sample(t1, t2, t3, t4))))) == [2, 4, 1]
  {
    var s := Sample(t1, t2, t3, t4);
    SamplePublished(t1, t2, t3, t4);
    var n := NormalizeAll([s[0], s[1], s[3]]);
    var n1, n2, n4 := n[0], n[1], n[2];
    assert n1.views == 120 && n2.views == 300 && n4.views == 210;
    assert n == [n1, n2] + [n4] && [n1, n2] == [n1] + [n2] && [n1] == [] + [n1];
    SortDescSnocSeq([], n1);
    SortDescSnocSeq([n1], n2);
    SortDescSnocSeq([n1, n2], n4);
    assert Insert([n1], n2) == Insert([], n2) + [n1];
    assert Insert([n2, n1], n4) == Insert([n2], n4) + [n1];
    assert SortDesc(n) == [n2, n4, n1];
  }

  // The sample titles, spelled out as words and the separators between them.
  lemma IntroTitleWords(t: string)
    requires t == "Intro Laravel"
    ensures t == "Intro" + (" " + "Laravel")
  {
  }

  lemma IntroWordsLower()
    ensures Lower("Intro") + ("-" + Lower("Laravel")) == "intro-laravel"
  {
    LowerCons('I', "ntro");
    LowerOfSlug("ntro");
    LowerCons('L', "aravel");
    LowerOfSlug("aravel");
  }

  lemma IntroTitleSlug(t: string)
    requires t == "Intro Laravel"
    ensures Slugify(t) == "intro-laravel"
  {
    IntroTitleWords(t);
    Slugify2("Intro", " ", "Laravel");
    IntroWordsLower();
  }

  lemma PracticeTitleWords(t: string)
    requires t == "PHP 8 en pratique"
    ensures t == "PHP" + (" " + ("8" + (" " + ("en" + (" " + "pratique")))))
  {
  }

  lemma PracticeWordsLower1()
    ensures Lower("PHP") == "php" && Lower("8") == "8"
  {
    LowerCons('P', "HP");
    LowerCons('H', "P");
    LowerCons('P', "");
    LowerOfSlug("8");
  }

  lemma PracticeWordsLower()
    ensures Lower("PHP") + ("-" + (Lower("8") + ("-" + (Lower("en") + ("-" + Lower("pratique")))))) ==
            "php-8-en-pratique"
  {
    PracticeWordsLower1();
    LowerOfSlug("en");
    LowerOfSlug("pratique");
  }

  lemma PracticeTitleSlug(t: string)
    requires t == "PHP 8 en pratique"
    ensures Slugify(t) == "php-8-en-pratique"
  {
    PracticeTitleWords(t);
    Slugify4("PHP", " ", "8", " ", "en", " ", "pratique");
    PracticeWordsLower();
  }

  lemma ValidationTitleWords(t: string)
    requires t == "Validation FormRequest"
    ensures t == "Validation" + (" " + "FormRequest")
  {
  }

  lemma ValidationWordsLower1()
    ensures Lower("Validation") == "validation"
  {
    LowerCons('V', "alidation");
    LowerOfSlug("alidation");
  }

  lemma ValidationWordsLower2()
    ensures Lower("FormRequest") == "formrequest"
  {
    assert "FormRequest" == "Form" + "Request";
    LowerAppend("Form", "Request");
    LowerCons('F', "orm");
    LowerOfSlug("orm");
    LowerCons('R', "equest");
    LowerOfSlug("equest");
  }

  lemma ValidationWordsLower()
    ensures Lower("Validation") + ("-" + Lower("FormRequest")) == "validation-formrequest"
  {
    ValidationWordsLower1();
    ValidationWordsLower2();
  }

  lemma ValidationTitleSlug(t: string)
    requires t == "Validation FormRequest"
    ensures Slugify(t) == "validation-formrequest"
  {
    ValidationTitleWords(t);
    Slugify2("Validation", " ", "FormRequest");
    ValidationWordsLower();
  }

  /** The slugs of the sample's published articles, in the sample's order. */
  lemma SampleSlugs(t1: string, t2: string, t3: string, t4: string)
    requires t1 == "Intro Laravel" && t2 == "PHP 8 en pratique"
    requires t3 == "Composer & Autoload" && t4 == "Validation FormRequest"
    ensures var n := NormalizeAll(Published(Sample(t1, t2, t3, t4)));
            |n| == 3 && n[0].slug == "intro-laravel" && n[1].slug == "php-8-en-pratique"
            && n[2].slug == "validation-formrequest"
  {
    var s := Sample(t1, t2, t3, t4);
    SamplePublished(t1, t2, t3, t4);
    var p := [s[0], s[1], s[3]];
    NormalizedEntries(p, 0);
    NormalizedEntries(p, 1);
    NormalizedEntries(p, 2);
    IntroTitleSlug(t1);
    PracticeTitleSlug(t2);
    ValidationTitleSlug(t4);
  }
}
