/** c3-php MemoryArticleRepository: an in-memory list of articles with unique slugs. */
module MemoryRepo {
  import opened Php
  import opened Domain

  class MemoryArticleRepository {
    /** The stored articles, in insertion order. */
    var articles: seq<Article>

    /** The repository invariant: stored slugs are pairwise distinct. */
    ghost predicate Valid()
      reads this
    {
      DistinctSlugs(articles)
    }

    /** A new repository is empty. */
    constructor()
      ensures Valid() && articles == []
    {
      articles := [];
    }

    /** all(): the stored list itself, in insertion order. */
    function All(): (r: seq<Article>)
      reads this
      ensures r == articles
      ensures Valid() ==> DistinctSlugs(r)
    {
      articles
    }

    /**
     * save(): refuse a slug that is already stored (the list is then left
     * as it was), otherwise append the article at the end.
     */
    method Save(a: Article) returns (r: Result<(), RepoError>)
      requires Valid()
      modifies this
      ensures Valid()
      ensures r.Ok? <==> !HasSlug(old(articles), a.slug)
      ensures r.Err? ==> r.error == DuplicateSlug(a.slug) && articles == old(articles)
      ensures r.Ok? ==> articles == old(articles) + [a]
    {
      var existingSlugs := Slugs(All());
      if a.slug in existingSlugs {
        return Err(DuplicateSlug(a.slug));
      }
      AppendKeepsDistinct(articles, a);
      articles := articles + [a];
      return Ok(());
    }
  }

  /**
   * The c3-php seed script: two articles with different slugs are both
   * stored in order, and saving them again is refused at the first one.
   */
  method SeedTwice(first: Article, second: Article)
    requires first.slug != second.slug
  {
    var repo := new MemoryArticleRepository();
    var r1 := repo.Save(first);
    var r2 := repo.Save(second);
    assert r1.Ok? by { assert !HasSlug([], first.slug); }
    assert r2.Ok? by { assert !HasSlug([first], second.slug); }
    assert repo.All() == [first, second];
    var r3 := repo.Save(first);
    assert r3 == Err(DuplicateSlug(first.slug)) by { ResaveRefused([first, second], 0); }
    assert repo.All() == [first, second];
  }
}
