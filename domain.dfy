/**
 * The article value shared by the c3-php repositories (App\Domain\Article,
 * whose class is not part of this model) and the slug-uniqueness rule both
 * of those repositories apply before appending.
 */
module Domain {
  import opened Php

  /** An article as the repositories see it: its id, title, slug and tags. */
  datatype Article = Article(id: int, title: string, slug: string, tags: seq<string>)

  /** Why a repository refused or failed an operation. */
  datatype RepoError =
    | DuplicateSlug(slug: string)   // DomainException
    | ReadFailed                    // RuntimeException while reading the store
    | WriteFailed                   // RuntimeException while writing the store

  /** The slugs of a list of articles, in order (array_map over slug()). */
  function Slugs(articles: seq<Article>): (r: seq<string>)
    ensures |r| == |articles|
    ensures forall i :: 0 <= i < |articles| ==> r[i] == articles[i].slug
    ensures forall s :: s in r <==> HasSlug(articles, s)
  {
    seq(|articles|, i requires 0 <= i < |articles| => articles[i].slug)
  }

  /** Some stored article carries this slug. */
  predicate HasSlug(articles: seq<Article>, slug: string)
  {
    exists i :: 0 <= i < |articles| && articles[i].slug == slug
  }

  /** No two stored articles share a slug. */
  predicate DistinctSlugs(articles: seq<Article>)
  {
    forall i, j :: 0 <= i < j < |articles| ==> articles[i].slug != articles[j].slug
  }

  /**
   * The save rule of both c3-php repositories: refuse when the slug is
   * strictly equal to a stored slug, otherwise append. Ids play no part.
   */
  function AppendIfSlugFree(existing: seq<Article>, a: Article): (r: Result<seq<Article>, RepoError>)
    ensures r.Err? <==> HasSlug(existing, a.slug)
    ensures r.Err? ==> r.error == DuplicateSlug(a.slug)
    ensures r.Ok? ==> |r.value| == |existing| + 1 && r.value[..|existing|] == existing
    ensures r.Ok? ==> r.value[|existing|] == a
  {
    if a.slug in Slugs(existing) then Err(DuplicateSlug(a.slug)) else Ok(existing + [a])
  }

  /** A successful save keeps the stored slugs pairwise distinct. */
  lemma AppendKeepsDistinct(existing: seq<Article>, a: Article)
    requires DistinctSlugs(existing)
    ensures AppendIfSlugFree(existing, a).Ok? ==> DistinctSlugs(AppendIfSlugFree(existing, a).value)
  {
    var r := AppendIfSlugFree(existing, a);
    if r.Ok? {
      var s := r.value;
      forall i, j | 0 <= i < j < |s| ensures s[i].slug != s[j].slug {
        if j == |existing| {
          assert s[i] == existing[i];
          assert !HasSlug(existing, a.slug);
        } else {
          assert s[i] == existing[i] && s[j] == existing[j];
        }
      }
    }
  }

  /** The verdict depends on the slug alone: the id is never consulted. */
  lemma VerdictIgnoresId(existing: seq<Article>, a: Article, b: Article)
    requires a.slug == b.slug
    ensures AppendIfSlugFree(existing, a).Ok? <==> AppendIfSlugFree(existing, b).Ok?
  {
  }

  /** Two articles with the same id and different slugs are both stored. */
  lemma SameIdBothStored(a: Article, b: Article)
    requires a.id == b.id && a.slug != b.slug
    ensures AppendIfSlugFree([a], b) == Ok([a, b])
  {
    assert !HasSlug([a], b.slug);
    assert [a] + [b] == [a, b];
  }

  /** Saving an article that is already stored is always refused. */
  lemma ResaveRefused(existing: seq<Article>, i: int)
    requires 0 <= i < |existing|
    ensures AppendIfSlugFree(existing, existing[i]) == Err(DuplicateSlug(existing[i].slug))
  {
    assert HasSlug(existing, existing[i].slug);
  }
}
