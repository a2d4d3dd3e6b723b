/**
 * blog-tools/src/Seed/ArticleFactory.php: ArticleFactory::make, which builds
 * `count` seed rows with numbered titles, slugs made unique by a numeric
 * suffix, and one to three distinct topic tags.
 *
 * The random draws (array_rand, rand) and the clock are inputs: `picks(i)`
 * holds every draw made for row i, and each index is read modulo the length
 * of its list, so every draw is a valid key. Str::slug and Str::excerpt are
 * not part of this model; they are the parameters `slugOf` and `excerptOf`.
 */
module ArticleFactory {
  import opened Php

  const Authors: seq<string> := ["Amine", "Sara", "Youssef", "Nadia"]
  const Topics: seq<string> := ["PHP", "Laravel", "Mobile", "UX", "MySQL"]
  const BaseTitles: seq<string> :=
    ["Bonnes pratiques", "Découvrir", "API REST lisible", "Pagination & filtres", "Exceptions utiles"]

  /** The draws for one row. */
  datatype Picks = Picks(
    prefixTopic: nat,                        // array_rand($this->topics) for the title, when no topic is given
    firstTag: nat,                           // array_rand($this->topics) for the first tag
    extra1: Option<nat>, extra2: Option<nat>, // rand(0, 1) ? array_rand($this->topics) : null, twice
    author: nat,                             // array_rand($this->authors)
    publishedAt: string)                     // date('c', time() - rand(...))

  datatype Row = Row(
    title: string, slug: string, excerpt: string, content: string,
    author: string, publishedAt: string, tags: seq<string>)

  datatype FactoryError = InvalidTopic(topic: string)

  function Topic(k: nat): string
  {
    Topics[k % |Topics|]
  }

  function Author(k: nat): string
  {
    Authors[k % |Authors|]
  }

  // ------------------------------------------------------------ titles

  /** The title prefix of row i: the given topic, else a drawn one. */
  function Prefix(topic: Option<string>, p: Picks): string
  {
    if topic.Some? then topic.value else Topic(p.prefixTopic)
  }

  /** `$baseTitles[($i - 1) % 5] . " $titlePrefix" . " #$i"` */
  function Title(i: int, prefix: string): string
  {
    BaseTitles[(i - 1) % |BaseTitles|] + " " + prefix + " #" + IntToString(i)
  }

  function Content(title: string): string
  {
    "Contenu d’exemple pour « " + title + " ». " + "Cet article illustre la génération de seed JSON côté CLI."
  }

  // ------------------------------------------------------------ slugs

  /** The k-th slug tried for a base slug: the base itself, then base-2, base-3, ... */
  function Candidate(base: string, k: nat): string
  {
    if k <= 1 then base else base + "-" + NatToString(k)
  }

  /** The candidates tried before the k-th. */
  function Tried(base: string, k: nat): set<string>
  {
    set m | 1 <= m < k :: Candidate(base, m)
  }

  /** Different numbers give different candidates. */
  lemma CandidateInjective(base: string, m: nat, k: nat)
    requires 1 <= m < k
    ensures Candidate(base, m) != Candidate(base, k)
  {
    var p := base + "-";
    assert Candidate(base, k) == p + NatToString(k);
    if m >= 2 {
      assert Candidate(base, m) == p + NatToString(m);
      if Candidate(base, m) == Candidate(base, k) {
        assert NatToString(m) == (p + NatToString(m))[|p|..];
        assert NatToString(k) == (p + NatToString(k))[|p|..];
        NatToStringInjective(m, k);
      }
    } else {
      assert |Candidate(base, k)| > |base|;
    }
  }

  lemma TriedStep(base: string, k: nat)
    requires k >= 1
    ensures Tried(base, k + 1) == Tried(base, k) + {Candidate(base, k)}
    ensures Candidate(base, k) !in Tried(base, k)
  {
    forall m | 1 <= m < k
      ensures Candidate(base, m) != Candidate(base, k)
    {
      CandidateInjective(base, m, k);
    }
  }

  /**
   * `while (isset($used[$slug])) $slug = $base . '-' . $n++;`: the first
   * candidate not yet used. n ends one past the number of that candidate.
   */
  method FreeSlug(used: set<string>, base: string) returns (slug: string, n: nat)
    ensures n >= 2 && slug == Candidate(base, n - 1)
    ensures slug !in used
    ensures forall m :: 1 <= m < n - 1 ==> Candidate(base, m) in used
  {
    slug := base;
    n := 2;
    ghost var tried: set<string> := {};
    while slug in used
      invariant n >= 2 && slug == Candidate(base, n - 1)
      invariant tried == Tried(base, n - 1) && tried <= used
      decreases used - tried
    {
      TriedStep(base, n - 1);
      tried := tried + {slug};
      slug := base + "-" + NatToString(n);
      n := n + 1;
    }
  }

  /** The shape of every slug make returns: the base slug, or it followed by '-' and a number of at least 2. */
  predicate SuffixForm(slug: string, base: string)
  {
    slug == base ||
    (|slug| > |base| + 1 && slug[..|base| + 1] == base + "-" &&
     (forall i :: |base| + 1 <= i < |slug| ==> IsDigit(slug[i])) &&
     DigitsValue(slug[|base| + 1..]) >= 2)
  }

  lemma CandidateForm(base: string, k: nat)
    ensures SuffixForm(Candidate(base, k), base)
  {
    if k >= 2 {
      var c, d := Candidate(base, k), NatToString(k);
      assert c == (base + "-") + d;
      assert c[..|base| + 1] == base + "-";
      assert c[|base| + 1..] == d;
      assert forall i :: |base| + 1 <= i < |c| ==> c[i] == d[i - |base| - 1];
      DigitsValueOfNatToString(k);
    }
  }

  // ------------------------------------------------------------ tags

  /** array_values(array_unique(...)): the first occurrence of each value, in order. */
  function Unique(s: seq<string>): (r: seq<string>)
    ensures |r| <= |s|
  {
    if s == [] then []
    else
      var r := Unique(s[..|s| - 1]);
      if s[|s| - 1] in r then r else r + [s[|s| - 1]]
  }

  predicate Distinct(s: seq<string>)
  {
    forall i, j :: 0 <= i < j < |s| ==> s[i] != s[j]
  }

  /** Unique keeps exactly the values of its input, once each, and its first value first. */
  lemma {:induction false} UniqueSpec(s: seq<string>)
    ensures Distinct(Unique(s))
    ensures forall x :: x in Unique(s) <==> x in s
    ensures s != [] ==> Unique(s) != [] && Unique(s)[0] == s[0]
  {
    if s != [] {
      var init := s[..|s| - 1];
      UniqueSpec(init);
      assert s == init + [s[|s| - 1]];
      if init == [] {
        assert Unique(s) == [s[0]];
      }
    }
  }

  /** array_filter(array_map(... rand(0, 1) ? topic : null ...)): the drawn extra tags. */
  function ExtraTags(p: Picks): seq<string>
  {
    (if p.extra1.Some? then [Topic(p.extra1.value)] else []) +
    (if p.extra2.Some? then [Topic(p.extra2.value)] else [])
  }

  /** `array_values(array_unique(array_merge($tags, $additionalTags)))` */
  function Tags(p: Picks): seq<string>
  {
    Unique([Topic(p.firstTag)] + Unique(ExtraTags(p)))
  }

  lemma TopicIn(k: nat)
    ensures Topic(k) in Topics
  {
    var i := k % |Topics|;
    assert Topics[i] in Topics;
  }

  lemma ExtraTagsSpec(p: Picks)
    ensures |ExtraTags(p)| <= 2
    ensures forall t :: t in ExtraTags(p) ==> t in Topics
  {
    if p.extra1.Some? {
      TopicIn(p.extra1.value);
    }
    if p.extra2.Some? {
      TopicIn(p.extra2.value);
    }
  }

  /** One to three distinct topics, the first drawn tag first. */
  lemma TagsSpec(p: Picks)
    ensures 1 <= |Tags(p)| <= 3
    ensures Distinct(Tags(p))
    ensures forall t :: t in Tags(p) ==> t in Topics
    ensures Tags(p)[0] == Topic(p.firstTag)
  {
    var first, extra := Topic(p.firstTag), Unique(ExtraTags(p));
    ExtraTagsSpec(p);
    TopicIn(p.firstTag);
    UniqueSpec(ExtraTags(p));
    var all := [first] + extra;
    UniqueSpec(all);
    assert all[0] == first;
    assert forall t :: t in all ==> t == first || t in extra;
  }

  // ------------------------------------------------------------ make

  /** Everything make promises about row i (numbered from one) for its draws. */
  predicate RowFor(row: Row, i: int, topic: Option<string>, p: Picks,
                   slugOf: string -> string, excerptOf: string -> string)
  {
    && row.title == Title(i, Prefix(topic, p))
    && SuffixForm(row.slug, slugOf(row.title))
    && row.content == Content(row.title)
    && row.excerpt == excerptOf(row.content)
    && row.author == Author(p.author) && row.author in Authors
    && row.publishedAt == p.publishedAt
    && row.tags == Tags(p) && 1 <= |row.tags| <= 3 && Distinct(row.tags)
    && (forall t :: t in row.tags ==> t in Topics)
  }

  predicate DistinctSlugs(rows: seq<Row>)
  {
    forall a, b :: 0 <= a < b < |rows| ==> rows[a].slug != rows[b].slug
  }

  /** The keys of $used: the slugs handed out so far. */
  function SlugSet(rows: seq<Row>): set<string>
  {
    set j | 0 <= j < |rows| :: rows[j].slug
  }

  lemma AuthorIn(k: nat)
    ensures Author(k) in Authors
  {
    var i := k % |Authors|;
    assert Authors[i] in Authors;
  }

  /** The row the loop body appends for number i, once its slug is chosen. */
  function BuildRow(i: int, topic: Option<string>, p: Picks, slug: string, excerptOf: string -> string): Row
  {
    var title := Title(i, Prefix(topic, p));
    var content := Content(title);
    Row(title, slug, excerptOf(content), content, Author(p.author), p.publishedAt, Tags(p))
  }

  lemma BuildRowFor(i: int, topic: Option<string>, p: Picks, slug: string,
                    slugOf: string -> string, excerptOf: string -> string)
    requires SuffixForm(slug, slugOf(Title(i, Prefix(topic, p))))
    ensures RowFor(BuildRow(i, topic, p, slug, excerptOf), i, topic, p, slugOf, excerptOf)
  {
    TagsSpec(p);
    AuthorIn(p.author);
  }

  /** Appending a row whose slug is not yet handed out keeps the slugs distinct. */
  lemma AppendFresh(rows: seq<Row>, row: Row)
    requires DistinctSlugs(rows) && row.slug !in SlugSet(rows)
    ensures DistinctSlugs(rows + [row])
    ensures SlugSet(rows + [row]) == SlugSet(rows) + {row.slug}
  {
    var r := rows + [row];
    assert forall j :: 0 <= j < |rows| ==> r[j] == rows[j];
    forall a, b | 0 <= a < b < |r| ensures r[a].slug != r[b].slug {
      if b == |rows| {
        assert r[a].slug in SlugSet(rows);
      }
    }
    assert r[|rows|] == row;
  }

  /**
   * slug is the first of base's candidates not in taken, which is what
   * the loop over $used settles on.
   */
  ghost predicate FirstFree(slug: string, base: string, taken: set<string>)
  {
    exists k: nat :: k >= 1 && slug == Candidate(base, k) && slug !in taken &&
      forall m :: 1 <= m < k ==> Candidate(base, m) in taken
  }

  /** Each row's slug is the first candidate for its title that the rows before it leave free. */
  ghost predicate FirstFreeSlugs(rows: seq<Row>, slugOf: string -> string)
  {
    forall i :: 0 <= i < |rows| ==> FirstFree(rows[i].slug, slugOf(rows[i].title), SlugSet(rows[..i]))
  }

  lemma AppendFirstFree(rows: seq<Row>, row: Row, slugOf: string -> string)
    requires FirstFreeSlugs(rows, slugOf)
    requires FirstFree(row.slug, slugOf(row.title), SlugSet(rows))
    ensures FirstFreeSlugs(rows + [row], slugOf)
  {
    var r := rows + [row];
    forall i | 0 <= i < |r| ensures FirstFree(r[i].slug, slugOf(r[i].title), SlugSet(r[..i])) {
      if i < |rows| {
        assert r[..i] == rows[..i] && r[i] == rows[i];
      } else {
        assert r[..i] == rows;
      }
    }
  }

  /** Rows numbered from one, each as RowFor describes. */
  predicate RowsFor(rows: seq<Row>, topic: Option<string>, picks: nat -> Picks,
                    slugOf: string -> string, excerptOf: string -> string)
  {
    forall i :: 0 <= i < |rows| ==> RowFor(rows[i], i + 1, topic, picks(i + 1), slugOf, excerptOf)
  }

  lemma AppendRowFor(rows: seq<Row>, row: Row, topic: Option<string>, picks: nat -> Picks,
                     slugOf: string -> string, excerptOf: string -> string)
    requires RowsFor(rows, topic, picks, slugOf, excerptOf)
    requires RowFor(row, |rows| + 1, topic, picks(|rows| + 1), slugOf, excerptOf)
    ensures RowsFor(rows + [row], topic, picks, slugOf, excerptOf)
  {
    var r := rows + [row];
    forall i | 0 <= i < |r| ensures RowFor(r[i], i + 1, topic, picks(i + 1), slugOf, excerptOf) {
      if i < |rows| {
        assert r[i] == rows[i];
      }
    }
  }

  /**
   * make($count, $topic): an unknown topic is rejected before anything is
   * generated; otherwise `count` rows (none when count <= 0), each as
   * RowFor describes, with pairwise distinct slugs.
   */
  method Make(count: int, topic: Option<string>, picks: nat -> Picks,
              slugOf: string -> string, excerptOf: string -> string)
    returns (r: Result<seq<Row>, FactoryError>)
    ensures r.Err? <==> topic.Some? && topic.value !in Topics
    ensures r.Err? ==> r.error == InvalidTopic(topic.value)
    ensures r.Ok? ==> |r.value| == (if count < 0 then 0 else count)
    ensures r.Ok? ==> RowsFor(r.value, topic, picks, slugOf, excerptOf)
    ensures r.Ok? ==> DistinctSlugs(r.value)
    ensures r.Ok? ==> FirstFreeSlugs(r.value, slugOf)
  {
    if topic.Some? && topic.value !in Topics {
      return Err(InvalidTopic(topic.value));
    }
    var used: map<string, bool> := map[];
    var rows: seq<Row> := [];
    var i := 1;
    while i <= count
      invariant 1 <= i <= if count < 0 then 1 else count + 1
      invariant |rows| == i - 1
      invariant RowsFor(rows, topic, picks, slugOf, excerptOf)
      invariant used.Keys == SlugSet(rows)
      invariant DistinctSlugs(rows)
      invariant FirstFreeSlugs(rows, slugOf)
    {
      var p := picks(i);
      var base := slugOf(Title(i, Prefix(topic, p)));
      var slug, n := FreeSlug(used.Keys, base);
      CandidateForm(base, n - 1);
      used := used[slug := true];
      var row := BuildRow(i, topic, p, slug, excerptOf);
      assert FirstFree(row.slug, slugOf(row.title), SlugSet(rows));
      AppendFirstFree(rows, row, slugOf);
      BuildRowFor(i, topic, p, slug, slugOf, excerptOf);
      AppendFresh(rows, row);
      AppendRowFor(rows, row, topic, picks, slugOf, excerptOf);
      rows := rows + [row];
      i := i + 1;
    }
    return Ok(rows);
  }
}
