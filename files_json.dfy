/**
 * Files_JSON/script.php: generate numbered articles, merge in the extra
 * articles whose slug is not already taken, then validate every article
 * before the seed is written. The JSON files themselves (loadJson,
 * saveJson, the atomic rename) are not modelled: the decoded extras are
 * an input, and a run either stops on a validation error or goes on to
 * write the seed.
 */
module FilesJson {
  import opened Php
  import opened Slug

  // ------------------------------------------------------------ generation

  /** The number of articles to generate: (int)$argv[2], or 2 without it. */
  function NumArticles(arg: Option<string>): int
  {
    if arg.Some? then StringToInt(arg.value) else 2
  }

  function Title(i: int): string
  {
    "Article Dynamique #" + IntToString(i)
  }

  function Excerpt(i: int): string
  {
    "Extrait pour l'article #" + IntToString(i) + "."
  }

  /** ['dynamic', 'php'] */
  function Tags(): Value
  {
    Arr([(IntKey(0), Str("dynamic")), (IntKey(1), Str("php"))])
  }

  /** The article the loop builds for number i. */
  function GeneratedArticle(i: int): Record
  {
    [(StrKey("id"), Int(i))] + ([(StrKey("title"), Str(Title(i)))] +
      ([(StrKey("slug"), Str(Slugify(Title(i))))] +
        ([(StrKey("excerpt"), Str(Excerpt(i)))] + [(StrKey("tags"), Tags())])))
  }

  /** Articles 1 to n, in order; none when n is zero or negative. */
  function Generated(n: int): (r: seq<Record>)
    ensures |r| == if n < 0 then 0 else n
  {
    seq(if n < 0 then 0 else n, k requires 0 <= k => GeneratedArticle(k + 1))
  }

  /** for ($i = 1; $i <= $numArticles; $i++) $articles[] = [...] */
  method Generate(n: int) returns (articles: seq<Record>)
    ensures articles == Generated(n)
  {
    articles := [];
    var i := 1;
    while i <= n
      invariant 1 <= i <= if n < 0 then 1 else n + 1
      invariant articles == Generated(i - 1)
    {
      assert Generated(i - 1) + [GeneratedArticle(i)] == Generated(i);
      articles := articles + [GeneratedArticle(i)];
      i := i + 1;
    }
    assert |Generated(n)| == i - 1;
  }

  /** What a generated article holds under the keys the rest of the script reads. */
  lemma GeneratedFields(i: int)
    ensures Get(GeneratedArticle(i), "id") == Int(i)
    ensures Get(GeneratedArticle(i), "title") == Str(Title(i))
    ensures Get(GeneratedArticle(i), "slug") == Str(Slugify(Title(i)))
  {
    var e0, e1, e2 := (StrKey("id"), Int(i)), (StrKey("title"), Str(Title(i))),
                      (StrKey("slug"), Str(Slugify(Title(i))));
    var rest := [(StrKey("excerpt"), Str(Excerpt(i)))] + [(StrKey("tags"), Tags())];
    LookupCons(e0, [e1] + ([e2] + rest), "id");
    LookupCons(e0, [e1] + ([e2] + rest), "title");
    LookupCons(e1, [e2] + rest, "title");
    LookupCons(e0, [e1] + ([e2] + rest), "slug");
    LookupCons(e1, [e2] + rest, "slug");
    LookupCons(e2, rest, "slug");
  }

  /** The slug of a generated title starts with 'a': it is never empty nor "0". */
  lemma GeneratedSlugHead(i: int)
    ensures Slugify(Title(i)) != [] && Slugify(Title(i))[0] == 'a'
  {
    assert Title(i)[0] == 'A';
    SlugifyHead(Title(i));
  }

  lemma {:induction false} WordCharsOfDigits(s: string)
    requires forall i :: 0 <= i < |s| ==> IsDigit(s[i])
    ensures WordChars(s) == s
    decreases |s|
  {
    if s != [] {
      WordCharsOfDigits(s[1..]);
    }
  }

  /** The letters and digits of a positive number's slug end with the number itself. */
  lemma SlugWordChars(i: int)
    requires i >= 1
    ensures WordChars(Slugify(Title(i))) == WordChars(Lower("Article Dynamique #")) + NatToString(i)
  {
    var p, d := "Article Dynamique #", NatToString(i);
    assert Title(i) == p + d;
    SlugifyKeepsWordChars(Title(i));
    LowerAppend(p, d);
    assert Lower(d) == d;
    WordCharsAppend(Lower(p), d);
    WordCharsOfDigits(d);
  }

  /** Distinct article numbers get distinct slugs. */
  lemma GeneratedSlugsDistinct(i: int, j: int)
    requires 1 <= i && 1 <= j && i != j
    ensures Slugify(Title(i)) != Slugify(Title(j))
  {
    SlugWordChars(i);
    SlugWordChars(j);
    var p := WordChars(Lower("Article Dynamique #"));
    if Slugify(Title(i)) == Slugify(Title(j)) {
      assert p + NatToString(i) == p + NatToString(j);
      assert NatToString(i) == (p + NatToString(i))[|p|..];
      assert NatToString(j) == (p + NatToString(j))[|p|..];
      NatToStringInjective(i, j);
    }
  }

  // ------------------------------------------------------------ merging

  /** array_column($articles, 'slug'): the slug of every article that has the key. */
  function SlugColumn(articles: seq<Record>): (r: seq<Value>)
    ensures forall v :: v in r <==> exists k :: 0 <= k < |articles| && Lookup(articles[k], "slug") == Some(v)
  {
    if articles == [] then []
    else
      var rest := SlugColumn(articles[1..]);
      assert forall k :: 1 <= k < |articles| ==> articles[k] == articles[1..][k - 1];
      match Lookup(articles[0], "slug")
      case Some(v) => [v] + rest
      case None => rest
  }

  /**
   * The foreach over the extras, after the first n of them: an extra whose
   * slug is not among the slugs taken before the loop is appended with a
   * new id, one past the current count.
   */
  function MergePrefix(base: seq<Record>, existing: seq<Value>, extras: seq<Record>, n: nat): seq<Record>
    requires n <= |extras|
  {
    if n == 0 then base
    else
      var prev := MergePrefix(base, existing, extras, n - 1);
      if Get(extras[n - 1], "slug") in existing then prev
      else prev + [SetKey(extras[n - 1], "id", Int(|prev| + 1))]
  }

  /** The extras, among the first n, whose slug is not taken; in order. */
  function NewExtras(existing: seq<Value>, extras: seq<Record>, n: nat): (r: seq<Record>)
    requires n <= |extras|
  {
    if n == 0 then []
    else if Get(extras[n - 1], "slug") in existing then NewExtras(existing, extras, n - 1)
    else NewExtras(existing, extras, n - 1) + [extras[n - 1]]
  }

  /** The import step: the generated articles followed by the new extras. */
  function Merge(generated: seq<Record>, extras: seq<Record>): seq<Record>
  {
    MergePrefix(generated, SlugColumn(generated), extras, |extras|)
  }

  /** $existingSlugs = array_column(...); foreach ($extraArticles as $extra) { ... } */
  method MergeExtras(articles: seq<Record>, extras: seq<Record>) returns (r: seq<Record>)
    ensures r == Merge(articles, extras)
  {
    var existing := SlugColumn(articles);
    r := articles;
    var i := 0;
    while i < |extras|
      invariant 0 <= i <= |extras|
      invariant r == MergePrefix(articles, existing, extras, i)
    {
      var extra := extras[i];
      if Get(extra, "slug") !in existing {
        extra := SetKey(extra, "id", Int(|r| + 1));
        r := r + [extra];
      }
      i := i + 1;
    }
  }

  /**
   * The merge keeps the base articles and appends exactly the new extras,
   * in order, each with its id replaced by its position plus one.
   */
  lemma {:induction false} MergePrefixSpec(base: seq<Record>, existing: seq<Value>, extras: seq<Record>, n: nat)
    requires n <= |extras|
    ensures var r, added := MergePrefix(base, existing, extras, n), NewExtras(existing, extras, n);
            && |r| == |base| + |added|
            && r[..|base|] == base
            && forall k :: 0 <= k < |added| ==> r[|base| + k] == SetKey(added[k], "id", Int(|base| + k + 1))
  {
    if n > 0 {
      MergePrefixSpec(base, existing, extras, n - 1);
    }
  }

  /** Every new extra's slug is untaken, and every untaken extra is new. */
  lemma {:induction false} NewExtrasSpec(existing: seq<Value>, extras: seq<Record>, n: nat)
    requires n <= |extras|
    ensures forall e :: e in NewExtras(existing, extras, n) ==> Get(e, "slug") !in existing
    ensures forall k :: 0 <= k < n && Get(extras[k], "slug") !in existing ==>
              extras[k] in NewExtras(existing, extras, n)
  {
    if n > 0 {
      NewExtrasSpec(existing, extras, n - 1);
    }
  }

  /** When the base articles are numbered by position from 1, so is the merged list. */
  lemma MergeIds(base: seq<Record>, existing: seq<Value>, extras: seq<Record>)
    requires forall k :: 0 <= k < |base| ==> Get(base[k], "id") == Int(k + 1)
    ensures var r := MergePrefix(base, existing, extras, |extras|);
            forall k :: 0 <= k < |r| ==> Get(r[k], "id") == Int(k + 1)
  {
    var r, added := MergePrefix(base, existing, extras, |extras|), NewExtras(existing, extras, |extras|);
    MergePrefixSpec(base, existing, extras, |extras|);
    forall k | 0 <= k < |r|
      ensures Get(r[k], "id") == Int(k + 1)
    {
      if k < |base| {
        assert r[k] == r[..|base|][k];
      } else {
        assert r[k] == SetKey(added[k - |base|], "id", Int(k + 1));
      }
    }
  }

  /** The generated articles are numbered 1 to n by position. */
  lemma GeneratedIds(n: int)
    ensures forall k :: 0 <= k < |Generated(n)| ==> Get(Generated(n)[k], "id") == Int(k + 1)
  {
    forall k | 0 <= k < |Generated(n)|
      ensures Get(Generated(n)[k], "id") == Int(k + 1)
    {
      GeneratedFields(k + 1);
    }
  }

  /**
   * The taken slugs are read once, before the loop: two extras with the
   * same untaken slug are both appended.
   */
  lemma SnapshotKeepsDuplicates(base: seq<Record>, existing: seq<Value>, e1: Record, e2: Record)
    requires Get(e1, "slug") == Get(e2, "slug") && Get(e1, "slug") !in existing
    ensures |MergePrefix(base, existing, [e1, e2], 2)| == |base| + 2
  {
    var extras := [e1, e2];
    assert extras[0] == e1 && extras[1] == e2;
    assert |MergePrefix(base, existing, extras, 1)| == |base| + 1;
  }

  // ------------------------------------------------------------ validation

  datatype ValidationError = TitleInvalid(index: nat) | SlugInvalid(index: nat)

  /** Neither empty() nor of a type other than string. */
  predicate ValidField(a: Record, k: string)
  {
    !IsEmpty(Get(a, k)) && IsString(Get(a, k))
  }

  /** The first failing check from article i on: the title of an article before its slug. */
  function FirstInvalid(articles: seq<Record>, i: nat): Option<ValidationError>
    requires i <= |articles|
    decreases |articles| - i
  {
    if i == |articles| then None
    else if !ValidField(articles[i], "title") then Some(TitleInvalid(i))
    else if !ValidField(articles[i], "slug") then Some(SlugInvalid(i))
    else FirstInvalid(articles, i + 1)
  }

  /** foreach ($articles as $index => $article) { ...throw new DomainException(...) } */
  method Validate(articles: seq<Record>) returns (r: Option<ValidationError>)
    ensures r == FirstInvalid(articles, 0)
  {
    var i := 0;
    while i < |articles|
      invariant 0 <= i <= |articles|
      invariant FirstInvalid(articles, 0) == FirstInvalid(articles, i)
    {
      if !ValidField(articles[i], "title") {
        return Some(TitleInvalid(i));
      }
      if !ValidField(articles[i], "slug") {
        return Some(SlugInvalid(i));
      }
      i := i + 1;
    }
    return None;
  }

  /**
   * The error names the first article that fails a check, and the check it
   * fails; there is none exactly when every article passes both.
   */
  lemma {:induction false} FirstInvalidSpec(articles: seq<Record>, i: nat)
    requires i <= |articles|
    ensures FirstInvalid(articles, i).None? <==>
              forall j :: i <= j < |articles| ==> ValidField(articles[j], "title") && ValidField(articles[j], "slug")
    ensures FirstInvalid(articles, i).Some? ==>
              var j := FirstInvalid(articles, i).value.index;
              && i <= j < |articles|
              && (forall l :: i <= l < j ==> ValidField(articles[l], "title") && ValidField(articles[l], "slug"))
              && (FirstInvalid(articles, i).value.TitleInvalid? <==> !ValidField(articles[j], "title"))
              && (FirstInvalid(articles, i).value.SlugInvalid? ==> !ValidField(articles[j], "slug"))
    decreases |articles| - i
  {
    if i < |articles| {
      FirstInvalidSpec(articles, i + 1);
    }
  }

  /** Unlike the strict test of the exception exercise, empty() also rejects the title "0". */
  lemma ZeroTitleRejected(a: Record)
    requires Get(a, "title") == Str("0")
    ensures !ValidField(a, "title")
  {
  }

  lemma GeneratedArticleValid(i: int)
    ensures ValidField(GeneratedArticle(i), "title") && ValidField(GeneratedArticle(i), "slug")
  {
    GeneratedFields(i);
    GeneratedSlugHead(i);
    assert Title(i)[0] == 'A';
  }

  /** Every generated article passes validation. */
  lemma GeneratedValid(n: int)
    ensures FirstInvalid(Generated(n), 0) == None
  {
    var g := Generated(n);
    forall j | 0 <= j < |g|
      ensures ValidField(g[j], "title") && ValidField(g[j], "slug")
    {
      assert g[j] == GeneratedArticle(j + 1);
      GeneratedArticleValid(j + 1);
    }
    FirstInvalidSpec(g, 0);
  }

  // ------------------------------------------------------------ the script

  /** The outcome of a run once the arguments are read: the validation error, or the articles to write. */
  function Run(arg: Option<string>, extras: Option<seq<Record>>): Result<seq<Record>, ValidationError>
  {
    var generated := Generated(NumArticles(arg));
    var articles := if extras.Some? then Merge(generated, extras.value) else generated;
    match FirstInvalid(articles, 0)
    case Some(e) => Err(e)
    case None => Ok(articles)
  }

  /** The exit status: 2 for a DomainException from the validation, 0 once the seed is written. */
  function ExitCode(r: Result<seq<Record>, ValidationError>): int
  {
    if r.Err? then 2 else 0
  }

  /** The script's steps in order. */
  method RunScript(arg: Option<string>, extras: Option<seq<Record>>) returns (r: Result<seq<Record>, ValidationError>)
    ensures r == Run(arg, extras)
  {
    var articles := Generate(NumArticles(arg));
    if extras.Some? {
      articles := MergeExtras(articles, extras.value);
    }
    var invalid := Validate(articles);
    if invalid.Some? {
      return Err(invalid.value);
    }
    return Ok(articles);
  }

  /**
   * Merging into valid articles numbered by position: a validation error
   * can only name an appended extra, and the result is numbered by position.
   */
  lemma MergeOutcome(base: seq<Record>, extras: seq<Record>)
    requires FirstInvalid(base, 0) == None
    requires forall k :: 0 <= k < |base| ==> Get(base[k], "id") == Int(k + 1)
    ensures FirstInvalid(Merge(base, extras), 0).Some? ==> FirstInvalid(Merge(base, extras), 0).value.index >= |base|
    ensures forall k :: 0 <= k < |Merge(base, extras)| ==> Get(Merge(base, extras)[k], "id") == Int(k + 1)
  {
    var m := Merge(base, extras);
    FirstInvalidSpec(base, 0);
    MergePrefixSpec(base, SlugColumn(base), extras, |extras|);
    MergeIds(base, SlugColumn(base), extras);
    FirstInvalidSpec(m, 0);
    assert forall k :: 0 <= k < |base| ==> m[k] == m[..|base|][k];
  }

  /**
   * Without extras a run always succeeds; with them, a validation error
   * can only name an imported article, and the written articles are
   * numbered 1 to their count.
   */
  lemma RunOutcome(arg: Option<string>, extras: Option<seq<Record>>)
    ensures extras.None? ==> ExitCode(Run(arg, extras)) == 0
    ensures Run(arg, extras).Err? ==> Run(arg, extras).error.index >= |Generated(NumArticles(arg))|
    ensures Run(arg, extras).Ok? ==>
              forall k :: 0 <= k < |Run(arg, extras).value| ==> Get(Run(arg, extras).value[k], "id") == Int(k + 1)
  {
    GeneratedValid(NumArticles(arg));
    GeneratedIds(NumArticles(arg));
    if extras.Some? {
      MergeOutcome(Generated(NumArticles(arg)), extras.value);
    }
  }

  // A generated title, spelled out as words and separators.
  lemma TitleWords(d: string)
    ensures "Article Dynamique #" + d == "Article" + (" " + ("Dynamique" + (" #" + d)))
  {
  }

  lemma TitleLower(d: string)
    requires forall i :: 0 <= i < |d| ==> IsDigit(d[i])
    ensures Lower("Article") + ("-" + (Lower("Dynamique") + ("-" + Lower(d)))) == "article-dynamique-" + d
  {
    assert Lower("Article") == "article" by {
      LowerCons('A', "rticle");
      LowerOfSlug("rticle");
    }
    assert Lower("Dynamique") == "dynamique" by {
      LowerCons('D', "ynamique");
      LowerOfSlug("ynamique");
    }
    LowerOfSlug(d);
  }

  /** The slug of the i-th generated title. */
  lemma GeneratedSlug(i: int)
    requires i >= 1
    ensures Slugify(Title(i)) == "article-dynamique-" + NatToString(i)
  {
    var d := NatToString(i);
    TitleWords(d);
    Slugify3("Article", " ", "Dynamique", " #", d);
    TitleLower(d);
  }
}
