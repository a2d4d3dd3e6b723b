/**
 * c3-php JsonArticleRepository: the articles persisted in one JSON file.
 * The file is an abstract field; reading and writing it are not modelled
 * beyond their possible outcomes.
 */
module JsonRepo {
  import opened Php
  import opened Domain

  /** What is at the repository's path. */
  datatype FileState =
    | Missing                                // no file at the path
    | Unreadable                             // a file that cannot be read
    | Present(decoded: Option<seq<Article>>) // None: content decoding to a falsy value

  /** How a write of the whole file ends; a failed write may leave anything behind. */
  datatype WriteOutcome = Written | Failed(left: FileState)

  /** all(): the persisted articles, or the read error. */
  function Load(file: FileState): (r: Result<seq<Article>, RepoError>)
    ensures r.Err? <==> file == Unreadable
    ensures r.Err? ==> r.error == ReadFailed
    ensures r.Ok? && r.value != [] ==> file.Present? && file.decoded == Some(r.value)
  {
    match file
    case Missing => Ok([])
    case Unreadable => Err(ReadFailed)
    case Present(decoded) => if decoded.Some? then Ok(decoded.value) else Ok([])
  }

  class JsonArticleRepository {
    var file: FileState

    constructor(initial: FileState)
      ensures file == initial
    {
      file := initial;
    }

    function All(): (r: Result<seq<Article>, RepoError>)
      reads this
      ensures r == Load(file)
      ensures r.Err? <==> file.Unreadable?
      ensures r.Ok? && r.value == [] ==> file.Present? ==> file.decoded == None || file.decoded == Some([])
      ensures r.Ok? && r.value != [] ==> file == Present(Some(r.value))
    {
      Load(file)
    }

    /** Persisted slugs are pairwise distinct (vacuous while the file cannot be read). */
    ghost predicate Valid()
      reads this
    {
      All().Ok? ==> DistinctSlugs(All().value)
    }

    /**
     * save(): load, refuse a persisted slug before any write, otherwise
     * write the old list followed by the new article.
     */
    method Save(a: Article, write: WriteOutcome) returns (r: Result<(), RepoError>)
      modifies this
      ensures old(All()).Err? ==> r == Err(ReadFailed) && file == old(file)
      ensures old(All()).Ok? && HasSlug(old(All()).value, a.slug) ==>
                r == Err(DuplicateSlug(a.slug)) && file == old(file)
      ensures old(All()).Ok? && !HasSlug(old(All()).value, a.slug) && write.Failed? ==>
                r == Err(WriteFailed) && file == write.left
      ensures old(All()).Ok? && !HasSlug(old(All()).value, a.slug) && write == Written ==>
                r == Ok(()) && All() == Ok(old(All()).value + [a])
      ensures old(Valid()) && r.Ok? ==> Valid()
    {
      var loaded := All();
      if loaded.Err? {
        return Err(loaded.error);
      }
      var existing := loaded.value;
      var existingSlugs := Slugs(existing);
      if a.slug in existingSlugs {
        return Err(DuplicateSlug(a.slug));
      }
      var rows := existing + [a];
      match write
      case Failed(left) =>
        file := left;
        return Err(WriteFailed);
      case Written =>
        if DistinctSlugs(existing) {
          AppendKeepsDistinct(existing, a);
        }
        file := Present(Some(rows));
        return Ok(());
    }
  }

  /** A missing file reads as an empty list, and so does a falsy decode. */
  lemma EmptyReads()
    ensures Load(Missing) == Ok([]) && Load(Present(None)) == Ok([]) && Load(Present(Some([]))) == Ok([])
  {
  }

  /**
   * Ids are ignored: when the file holds `stored`, saving an article that
   * reuses a stored id under a new slug appends it.
   */
  method StoredIdAppended(stored: seq<Article>, a: Article, i: int)
    returns (repo: JsonArticleRepository, r: Result<(), RepoError>)
    requires 0 <= i < |stored| && a.id == stored[i].id && !HasSlug(stored, a.slug)
    ensures r == Ok(()) && repo.All() == Ok(stored + [a])
  {
    repo := new JsonArticleRepository(Present(Some(stored)));
    r := repo.Save(a, Written);
  }
}
