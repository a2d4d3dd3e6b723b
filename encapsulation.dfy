/**
 * Encapsulation_visibility/encapsulation.php: an Article entity whose title
 * and slug change together, its FeaturedArticle variant, an instance counter,
 * and a repository keyed by article id that keeps slugs unique across ids.
 */
module Encapsulation {
  import opened Php
  import opened Slug
  import Domain

  /** Article or FeaturedArticle: the two differ only in how they slugify. */
  datatype Kind = Standard | Featured

  datatype ArticleError =
    | InvalidId    // "id > 0 requis."
    | EmptyTitle   // "Titre requis."
    | EmptyTag     // "Tag vide."

  /** static::slugify under late static binding. */
  function SlugFor(kind: Kind, title: string): string
  {
    match kind
    case Standard => Slugify(title)
    case Featured => FeaturedSlugify(title)
  }

  /** A stored title: already trimmed and not empty. */
  predicate IsTitle(t: string)
  {
    t != [] && IsTrimmed(t)
  }

  /** Trimming a title that is not blank gives a stored title. */
  lemma TitleOfTrim(t: string)
    requires Trim(t) != []
    ensures IsTitle(Trim(t))
  {
    TrimFixpoint(t);
  }

  /** The static Article::$count, made an explicit object. */
  class ArticleCounter {
    var count: nat

    constructor()
      ensures count == 0
    {
      count := 0;
    }
  }

  class Article {
    const id: int
    const kind: Kind
    var title: string
    var slug: string
    var tags: seq<string>

    /** What every constructed article keeps: a positive id, a stored title and the slug derived from it. */
    ghost predicate Valid()
      reads this
    {
      id > 0 && IsTitle(title) && slug == SlugFor(kind, title)
    }

    /** The constructor body once the title has been trimmed and checked. */
    constructor Init(id: int, kind: Kind, title: string, tags: seq<string>)
      requires id > 0 && IsTitle(title)
      ensures Valid()
      ensures this.id == id && this.kind == kind && this.title == title && this.tags == tags
    {
      this.id := id;
      this.kind := kind;
      this.title := title;
      this.slug := SlugFor(kind, title);
      this.tags := tags;
    }

    /**
     * new Article($id, $title, $tags): refuses a non-positive id, then a
     * title that is empty once trimmed; the counter rises only on success.
     */
    static method Make(counter: ArticleCounter, id: int, kind: Kind, title: string, tags: seq<string>)
      returns (r: Result<Article, ArticleError>)
      modifies counter
      ensures id <= 0 ==> r == Err(InvalidId)
      ensures id > 0 && Trim(title) == [] ==> r == Err(EmptyTitle)
      ensures r.Err? ==> counter.count == old(counter.count)
      ensures id > 0 && Trim(title) != [] ==>
                r.Ok? && fresh(r.value) && r.value.Valid() &&
                r.value.id == id && r.value.kind == kind && r.value.tags == tags &&
                r.value.title == Trim(title) && counter.count == old(counter.count) + 1
    {
      if id <= 0 {
        return Err(InvalidId);
      }
      if Trim(title) == [] {
        return Err(EmptyTitle);
      }
      TitleOfTrim(title);
      var a := new Article.Init(id, kind, Trim(title), tags);
      counter.count := counter.count + 1;
      return Ok(a);
    }

    /** Article::fromTitle / FeaturedArticle::fromTitle: no tags. */
    static method FromTitle(counter: ArticleCounter, id: int, kind: Kind, title: string)
      returns (r: Result<Article, ArticleError>)
      modifies counter
      ensures id <= 0 ==> r == Err(InvalidId)
      ensures id > 0 && Trim(title) == [] ==> r == Err(EmptyTitle)
      ensures r.Err? ==> counter.count == old(counter.count)
      ensures id > 0 && Trim(title) != [] ==>
                r.Ok? && fresh(r.value) && r.value.Valid() &&
                r.value.id == id && r.value.kind == kind && r.value.tags == [] &&
                r.value.title == Trim(title) && counter.count == old(counter.count) + 1
    {
      r := Make(counter, id, kind, title, []);
    }

    /**
     * setTitle(): store the trimmed title and re-derive the slug; a title that
     * is empty once trimmed is refused and nothing changes.
     */
    method SetTitle(t: string) returns (r: Result<(), ArticleError>)
      requires Valid()
      modifies this
      ensures Valid() && tags == old(tags)
      ensures Trim(t) == [] ==> r == Err(EmptyTitle) && title == old(title) && slug == old(slug)
      ensures Trim(t) != [] ==> r == Ok(()) && title == Trim(t) && slug == SlugFor(kind, Trim(t))
    {
      var trimmed := Trim(t);
      if trimmed == [] {
        return Err(EmptyTitle);
      }
      TitleOfTrim(t);
      title := trimmed;
      slug := SlugFor(kind, trimmed);
      return Ok(());
    }

    /** addTag(): append the trimmed tag; a blank tag is refused and the tags stay as they were. */
    method AddTag(tag: string) returns (r: Result<(), ArticleError>)
      requires Valid()
      modifies this
      ensures Valid() && title == old(title) && slug == old(slug)
      ensures Trim(tag) == [] ==> r == Err(EmptyTag) && tags == old(tags)
      ensures Trim(tag) != [] ==> r == Ok(()) && tags == old(tags) + [Trim(tag)]
    {
      var t := Trim(tag);
      if t == [] {
        return Err(EmptyTag);
      }
      tags := tags + [t];
      return Ok(());
    }

    /** toArray(): the id, title, slug and tags as one value. */
    function ToArray(): (r: Domain.Article)
      reads this
      ensures r.id == id && r.title == title && r.slug == slug && r.tags == tags
      ensures Valid() ==> r.id > 0 && IsTitle(r.title) && r.slug == SlugFor(kind, r.title)
    {
      Domain.Article(id, title, slug, tags)
    }
  }

  // ArticleRepository keeps a PHP array keyed by article id; since the key is
  // always the article's own id, the store is the list of entries in
  // insertion order, with distinct ids.

  /** The position of the entry with this id, or -1. */
  function IndexOf(s: seq<Domain.Article>, id: int): (r: int)
    ensures -1 <= r < |s|
    ensures r >= 0 ==> s[r].id == id
    ensures r < 0 ==> forall j :: 0 <= j < |s| ==> s[j].id != id
  {
    if s == [] then -1
    else if s[|s| - 1].id == id then |s| - 1
    else
      var r := IndexOf(s[..|s| - 1], id);
      assert forall j :: 0 <= j < |s| - 1 ==> s[..|s| - 1][j] == s[j];
      r
  }

  /** $articles[$id] ?? null */
  function Find(s: seq<Domain.Article>, id: int): (r: Option<Domain.Article>)
    ensures r.None? <==> forall j :: 0 <= j < |s| ==> s[j].id != id
    ensures r.Some? ==> r.value.id == id && r.value in s
  {
    var i := IndexOf(s, id);
    if i >= 0 then Some(s[i]) else None
  }

  /** $articles[$id] = $a: overwrite in place when the id is stored, else append. */
  function Put(s: seq<Domain.Article>, a: Domain.Article): seq<Domain.Article>
  {
    var i := IndexOf(s, a.id);
    if i >= 0 then s[i := a] else s + [a]
  }

  predicate DistinctIds(s: seq<Domain.Article>)
  {
    forall i, j :: 0 <= i < j < |s| ==> s[i].id != s[j].id
  }

  /** A stored article with another id already uses the slug. */
  predicate Clash(s: seq<Domain.Article>, a: Domain.Article)
  {
    exists i :: 0 <= i < |s| && s[i].id != a.id && s[i].slug == a.slug
  }

  /** The repository invariant: one entry per id, and no two entries share a slug. */
  predicate StoreInvariant(s: seq<Domain.Article>)
  {
    DistinctIds(s) && Domain.DistinctSlugs(s)
  }

  /** ArticleRepository::save on the stored values: refuse a clash, otherwise store under the id. */
  function SaveById(s: seq<Domain.Article>, a: Domain.Article): (r: Result<seq<Domain.Article>, Domain.RepoError>)
    ensures r.Err? <==> Clash(s, a)
    ensures r.Err? ==> r.error == Domain.DuplicateSlug(a.slug)
  {
    if Clash(s, a) then Err(Domain.DuplicateSlug(a.slug)) else Ok(Put(s, a))
  }

  lemma IndexOfUnique(s: seq<Domain.Article>, j: int)
    requires DistinctIds(s) && 0 <= j < |s|
    ensures IndexOf(s, s[j].id) == j
  {
  }

  /** Storing under an id keeps one entry per id; a known id keeps the size, a new id is appended. */
  lemma PutShape(s: seq<Domain.Article>, a: Domain.Article)
    requires DistinctIds(s)
    ensures DistinctIds(Put(s, a))
    ensures Find(s, a.id).Some? ==> |Put(s, a)| == |s|
    ensures Find(s, a.id).None? ==> Put(s, a) == s + [a]
  {
    var i := IndexOf(s, a.id);
    var t := Put(s, a);
    forall p, q | 0 <= p < q < |t| ensures t[p].id != t[q].id {
      if i < 0 && q == |s| {
        assert t[p] == s[p];
      }
    }
  }

  /** After storing under an id, findById gives the new article for that id and what it gave before for every other id. */
  lemma PutFind(s: seq<Domain.Article>, a: Domain.Article)
    requires DistinctIds(s)
    ensures Find(Put(s, a), a.id) == Some(a)
    ensures forall id :: id != a.id ==> Find(Put(s, a), id) == Find(s, id)
  {
    PutShape(s, a);
    var i := IndexOf(s, a.id);
    var t := Put(s, a);
    if i >= 0 {
      IndexOfUnique(t, i);
    } else {
      IndexOfUnique(t, |s|);
    }
    forall id | id != a.id ensures Find(t, id) == Find(s, id) {
      PutFindOther(s, a, id);
    }
  }

  lemma PutFindOther(s: seq<Domain.Article>, a: Domain.Article, id: int)
    requires DistinctIds(s) && DistinctIds(Put(s, a)) && id != a.id
    ensures Find(Put(s, a), id) == Find(s, id)
  {
    var i := IndexOf(s, a.id);
    var t := Put(s, a);
    var k := IndexOf(s, id);
    if k >= 0 {
      assert t[k] == s[k];
      IndexOfUnique(t, k);
    } else {
      forall j | 0 <= j < |t| ensures t[j].id != id {
        if j < |s| && j != i {
          assert t[j] == s[j];
        }
      }
    }
  }

  /** A successful save keeps one entry per id and slugs unique across entries. */
  lemma SaveByIdKeepsInvariant(s: seq<Domain.Article>, a: Domain.Article)
    requires StoreInvariant(s)
    ensures SaveById(s, a).Ok? ==> StoreInvariant(SaveById(s, a).value)
  {
    if !Clash(s, a) {
      PutShape(s, a);
      var i := IndexOf(s, a.id);
      var t := Put(s, a);
      forall p, q | 0 <= p < q < |t| ensures t[p].slug != t[q].slug {
        if p == i || q == i || q == |s| {
          var other := if p == i || q == i then (if p == i then q else p) else p;
          assert t[other] == s[other];
          assert s[other].id != a.id;
        } else {
          assert t[p] == s[p] && t[q] == s[q];
        }
      }
    }
  }

  class ArticleRepository {
    /** The stored articles in insertion order (value snapshots of the saved objects). */
    var articles: seq<Domain.Article>

    ghost predicate Valid()
      reads this
    {
      StoreInvariant(articles)
    }

    constructor()
      ensures Valid() && articles == []
    {
      articles := [];
    }

    /**
     * save(): scan the stored articles for one with another id and the same
     * slug (the store is then unchanged), otherwise store under the id.
     */
    method Save(article: Article) returns (r: Result<(), Domain.RepoError>)
      requires Valid()
      modifies this
      ensures Valid()
      ensures r.Err? <==> SaveById(old(articles), article.ToArray()).Err?
      ensures r.Err? ==> r.error == Domain.DuplicateSlug(article.slug) && articles == old(articles)
      ensures r.Ok? ==> articles == SaveById(old(articles), article.ToArray()).value
    {
      var a := article.ToArray();
      var i := 0;
      while i < |articles|
        invariant 0 <= i <= |articles|
        invariant forall j :: 0 <= j < i ==> !(articles[j].id != a.id && articles[j].slug == a.slug)
      {
        if articles[i].id != a.id && articles[i].slug == a.slug {
          return Err(Domain.DuplicateSlug(a.slug));
        }
        i := i + 1;
      }
      SaveByIdKeepsInvariant(articles, a);
      articles := Put(articles, a);
      return Ok(());
    }

    /** findById(): the entry stored under the id, or null. */
    function FindById(id: int): (r: Option<Domain.Article>)
      reads this
      ensures r.None? <==> forall j :: 0 <= j < |articles| ==> articles[j].id != id
      ensures r.Some? ==> r.value.id == id && r.value in articles
    {
      Find(articles, id)
    }
  }

  /**
   * The repository half of the demo at the end of encapsulation.php: two
   * articles with different slugs are stored, a third with the first one's
   * slug and another id is refused, and a new article with id 1 overwrites
   * the first entry without growing the store.
   */
  lemma RepositoryDemo(a: Domain.Article, b: Domain.Article, c: Domain.Article, u: Domain.Article)
    requires a.id == 1 && b.id == 2 && c.id == 3 && u.id == 1
    requires a.slug != b.slug && c.slug == a.slug && u.slug != b.slug
    ensures SaveById([], a) == Ok([a])
    ensures SaveById([a], b) == Ok([a, b])
    ensures SaveById([a, b], c) == Err(Domain.DuplicateSlug(a.slug))
    ensures SaveById([a, b], u) == Ok([u, b])
  {
    assert [] + [a] == [a];
    assert !Clash([a], b);
    assert IndexOf([a], b.id) == -1;
    assert [a] + [b] == [a, b];
    assert Clash([a, b], c) by { assert [a, b][0] == a; }
    assert !Clash([a, b], u);
    assert IndexOf([a, b], u.id) == 0;
    assert [a, b][0 := u] == [u, b];
  }

  /**
   * The article half of the demo at the end of encapsulation.php: the
   * counter reads 2 once an Article and a FeaturedArticle are built; a third
   * article reuses the first title and a fourth reuses id 1.
   */
  method DemoArticles(titleA: string, titleB: string, titleU: string)
    returns (countAfterTwo: nat, a: Domain.Article, b: Domain.Article, c: Domain.Article, u: Domain.Article)
    requires IsTitle(titleA) && IsTitle(titleB) && IsTitle(titleU)
    ensures countAfterTwo == 2
    ensures a == Domain.Article(1, titleA, Slugify(titleA), [])
    ensures b == Domain.Article(2, titleB, FeaturedSlugify(titleB), ["best"])
    ensures c == Domain.Article(3, titleA, Slugify(titleA), [])
    ensures u == Domain.Article(1, titleU, Slugify(titleU), [])
  {
    TrimOfTrimmed(titleA);
    TrimOfTrimmed(titleB);
    TrimOfTrimmed(titleU);
    TrimOfTrimmed("best");
    var counter := new ArticleCounter();
    var ra := Article.FromTitle(counter, 1, Standard, titleA);
    var rb := Article.FromTitle(counter, 2, Featured, titleB);
    var rt := rb.value.AddTag("best");
    countAfterTwo := counter.count;
    var rc := Article.FromTitle(counter, 3, Standard, titleA);
    var ru := Article.FromTitle(counter, 1, Standard, titleU);
    a := ra.value.ToArray();
    b := rb.value.ToArray();
    c := rc.value.ToArray();
    u := ru.value.ToArray();
  }

  /** Titles shaped like the demo's give the slug relations the repository half needs. */
  lemma DemoSlugs(titleA: string, titleB: string, titleU: string)
    requires titleA != [] && IsWordChar(titleA[0]) && LowerChar(titleA[0]) != 'f'
    requires titleU != [] && IsWordChar(titleU[0]) && LowerChar(titleU[0]) != 'f'
    ensures Slugify(titleA) != FeaturedSlugify(titleB)
    ensures Slugify(titleU) != FeaturedSlugify(titleB)
  {
    FeaturedSlugifyIsSlug(titleB);
    assert FeaturedSlugify(titleB)[0] == 'f' by {
      assert FeaturedSlugify(titleB)[..9] == "featured-";
    }
    SlugifyHead(titleA);
    SlugifyHead(titleU);
  }

  /** The demo at the end of encapsulation.php with its own titles. */
  method Demo()
  {
    var titleA := "Encapsulation & visibilité en PHP";
    var titleB := "Lire moins, comprendre plus";
    var titleU := "Updated Encapsulation";
    var n, a, b, c, u := DemoArticles(titleA, titleB, titleU);
    DemoSlugs(titleA, titleB, titleU);
    RepositoryDemo(a, b, c, u);
  }

  // The demo titles, spelled out as words and the separators between them.
  lemma EncapsulationTitleWords(t: string)
    requires t == "Encapsulation & visibilité en PHP"
    ensures t == "Encapsulation" + (" & " + ("visibilit" + ("é " + ("en" + (" " + "PHP")))))
  {
  }

  lemma EncapsulationWordsLower1()
    ensures Lower("Encapsulation") == "encapsulation" && Lower("visibilit") == "visibilit"
  {
    LowerCons('E', "ncapsulation");
    LowerOfSlug("ncapsulation");
    LowerOfSlug("visibilit");
  }

  lemma EncapsulationWordsLower2()
    ensures Lower("en") == "en" && Lower("PHP") == "php"
  {
    LowerOfSlug("en");
    LowerCons('P', "HP");
    LowerCons('H', "P");
    LowerCons('P', "");
  }

  lemma EncapsulationWordsLower()
    ensures Lower("Encapsulation") + ("-" + (Lower("visibilit") + ("-" + (Lower("en") + ("-" + Lower("PHP")))))) ==
            "encapsulation-visibilit-en-php"
  {
    EncapsulationWordsLower1();
    EncapsulationWordsLower2();
  }

  /**
   * The slug of the first demo article: "é" is not an ASCII letter, so it
   * acts as a separator and "visibilité" loses its last letter.
   */
  lemma EncapsulationTitleSlug(t: string)
    requires t == "Encapsulation & visibilité en PHP"
    ensures Slugify(t) == "encapsulation-visibilit-en-php"
  {
    EncapsulationTitleWords(t);
    Slugify4("Encapsulation", " & ", "visibilit", "é ", "en", " ", "PHP");
    EncapsulationWordsLower();
  }

  lemma LireTitleWords(t: string)
    requires t == "Lire moins, comprendre plus"
    ensures t == "Lire" + (" " + ("moins" + (", " + ("comprendre" + (" " + "plus")))))
  {
  }

  lemma LireWordsLower1()
    ensures Lower("Lire") == "lire" && Lower("moins") == "moins"
  {
    LowerCons('L', "ire");
    LowerOfSlug("ire");
    LowerOfSlug("moins");
  }

  lemma LireWordsLower2()
    ensures Lower("comprendre") == "comprendre" && Lower("plus") == "plus"
  {
    LowerOfSlug("comprendre");
    LowerOfSlug("plus");
  }

  lemma LireWordsLower()
    ensures Lower("Lire") + ("-" + (Lower("moins") + ("-" + (Lower("comprendre") + ("-" + Lower("plus")))))) ==
            "lire-moins-comprendre-plus"
  {
    LireWordsLower1();
    LireWordsLower2();
  }

  /** The plain slug of the second demo title. */
  lemma LireTitleSlug(t: string)
    requires t == "Lire moins, comprendre plus"
    ensures Slugify(t) == "lire-moins-comprendre-plus"
  {
    LireTitleWords(t);
    Slugify4("Lire", " ", "moins", ", ", "comprendre", " ", "plus");
    LireWordsLower();
  }

  /** The featured article of the demo gets the "featured-" slug. */
  lemma DemoFeaturedSlug(t: string)
    requires t == "Lire moins, comprendre plus"
    ensures FeaturedSlugify(t) == "featured-lire-moins-comprendre-plus"
  {
    LireTitleSlug(t);
  }
}
