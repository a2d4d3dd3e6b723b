/**
 * Types_syntaxe/exercise.php: buildArticle, which fills in defaults with
 * `??=`, casts every field and clamps the view count at zero.
 */
module TypesSyntax {
  import opened Php

  /** The array buildArticle returns; a null excerpt is None. */
  datatype BuiltArticle = BuiltArticle(
    title: string, excerpt: Option<string>, views: int, published: bool, author: string)

  /** `$row[$k] ??= $default`: the key keeps its value unless it is missing or null. */
  function Default(row: Record, k: string, default: Value): (r: Record)
    ensures Get(r, k) == Coalesce(row, k, default)
  {
    if Isset(row, k) then row else SetKey(row, k, default)
  }

  /** buildArticle($row) */
  function BuildArticle(input: Record): BuiltArticle
  {
    var row := Default(Default(Default(input, "title", Str("Sans titre")), "author", Str("N/A")),
                       "published", Bool(true));
    var title := Trim(ToStr(Get(row, "title")));
    var trimmed := if Isset(row, "excerpt") then Some(Trim(ToStr(Get(row, "excerpt")))) else None;
    var excerpt := if trimmed == Some("") then None else trimmed;
    var cast := ToInt(Coalesce(row, "views", Int(0)));
    var views := if cast < 0 then 0 else cast;
    BuiltArticle(title, excerpt, views, ToBool(Get(row, "published")), Trim(ToStr(Get(row, "author"))))
  }

  /** Filling in one default leaves every other key as it was. */
  lemma DefaultOther(row: Record, k: string, default: Value, k2: string)
    requires k2 != k
    ensures Get(Default(row, k, default), k2) == Get(row, k2)
  {
    if !Isset(row, k) {
      SetKeyLookup(row, k, default, k2);
    }
  }

  /** The fields buildArticle reads, after the three defaults are filled in. */
  lemma DefaultsApplied(input: Record)
    ensures var row := Default(Default(Default(input, "title", Str("Sans titre")), "author", Str("N/A")),
                               "published", Bool(true));
            && Get(row, "title") == Coalesce(input, "title", Str("Sans titre"))
            && Get(row, "author") == Coalesce(input, "author", Str("N/A"))
            && Get(row, "published") == Coalesce(input, "published", Bool(true))
            && Get(row, "excerpt") == Get(input, "excerpt")
            && Get(row, "views") == Get(input, "views")
  {
    var r1 := Default(input, "title", Str("Sans titre"));
    var r2 := Default(r1, "author", Str("N/A"));
    DefaultOther(input, "title", Str("Sans titre"), "author");
    DefaultOther(input, "title", Str("Sans titre"), "published");
    DefaultOther(r1, "author", Str("N/A"), "published");
    DefaultOther(r1, "author", Str("N/A"), "title");
    DefaultOther(r2, "published", Bool(true), "title");
    DefaultOther(r2, "published", Bool(true), "author");
    DefaultOther(input, "title", Str("Sans titre"), "excerpt");
    DefaultOther(r1, "author", Str("N/A"), "excerpt");
    DefaultOther(r2, "published", Bool(true), "excerpt");
    DefaultOther(input, "title", Str("Sans titre"), "views");
    DefaultOther(r1, "author", Str("N/A"), "views");
    DefaultOther(r2, "published", Bool(true), "views");
  }

  /**
   * The title is the trimmed (string) cast of the given title, or
   * "Sans titre" when it is missing or null; it is always trimmed.
   */
  lemma TitleField(input: Record)
    ensures !Isset(input, "title") ==> BuildArticle(input).title == "Sans titre"
    ensures Isset(input, "title") ==> BuildArticle(input).title == Trim(ToStr(Get(input, "title")))
    ensures IsTrimmed(BuildArticle(input).title)
  {
    DefaultsApplied(input);
    TrimFixpoint(ToStr(Coalesce(input, "title", Str("Sans titre"))));
  }

  /** The author likewise, with "N/A" as the default. */
  lemma AuthorField(input: Record)
    ensures !Isset(input, "author") ==> BuildArticle(input).author == "N/A"
    ensures Isset(input, "author") ==> BuildArticle(input).author == Trim(ToStr(Get(input, "author")))
    ensures IsTrimmed(BuildArticle(input).author)
  {
    DefaultsApplied(input);
    TrimFixpoint(ToStr(Coalesce(input, "author", Str("N/A"))));
  }

  /** published is true when missing or null, otherwise the (bool) cast of the given value. */
  lemma PublishedField(input: Record)
    ensures !Isset(input, "published") ==> BuildArticle(input).published
    ensures Isset(input, "published") ==> BuildArticle(input).published == ToBool(Get(input, "published"))
  {
    DefaultsApplied(input);
  }

  /**
   * The excerpt is null exactly when it is missing, null, or empty once
   * trimmed; otherwise it is the trimmed (string) cast, never empty.
   */
  lemma ExcerptField(input: Record)
    ensures BuildArticle(input).excerpt.None? <==>
              !Isset(input, "excerpt") || Trim(ToStr(Get(input, "excerpt"))) == ""
    ensures BuildArticle(input).excerpt.Some? ==>
              && BuildArticle(input).excerpt.value == Trim(ToStr(Get(input, "excerpt")))
              && BuildArticle(input).excerpt.value != ""
              && IsTrimmed(BuildArticle(input).excerpt.value)
  {
    DefaultsApplied(input);
    TrimFixpoint(ToStr(Get(input, "excerpt")));
  }

  /** views is the (int) cast, 0 when missing, and negative values are raised to 0. */
  lemma ViewsField(input: Record)
    ensures BuildArticle(input).views >= 0
    ensures ToInt(Coalesce(input, "views", Int(0))) >= 0 ==>
              BuildArticle(input).views == ToInt(Coalesce(input, "views", Int(0)))
    ensures ToInt(Coalesce(input, "views", Int(0))) < 0 ==> BuildArticle(input).views == 0
    ensures !Isset(input, "views") ==> BuildArticle(input).views == 0
  {
    DefaultsApplied(input);
    assert Coalesce(Default(Default(Default(input, "title", Str("Sans titre")), "author", Str("N/A")),
                            "published", Bool(true)), "views", Int(0)) == Coalesce(input, "views", Int(0));
  }

  /**
   * The exercise's input array, for any trimmed title and author and any
   * digit string as views: an empty excerpt and no 'published' key.
   */
  function SampleInput(title: string, views: string, author: string): Record
  {
    [(StrKey("title"), Str(title))] + ([(StrKey("excerpt"), Str(""))] +
      ([(StrKey("views"), Str(views))] + [(StrKey("author"), Str(author))]))
  }

  /** What the sample array holds under key k. */
  lemma SampleLookup(title: string, views: string, author: string, k: string)
    ensures Lookup(SampleInput(title, views, author), k) ==
              if k == "title" then Some(Str(title)) else if k == "excerpt" then Some(Str(""))
              else if k == "views" then Some(Str(views)) else if k == "author" then Some(Str(author))
              else None
  {
    var e0, e1, e2, e3 := (StrKey("title"), Str(title)), (StrKey("excerpt"), Str("")),
                          (StrKey("views"), Str(views)), (StrKey("author"), Str(author));
    LookupCons(e0, [e1] + ([e2] + [e3]), k);
    LookupCons(e1, [e2] + [e3], k);
    LookupCons(e2, [e3], k);
    LookupCons(e3, [], k);
    assert [e3] + [] == [e3];
  }

  /**
   * On it the title and author come back unchanged, views is the number the
   * digits spell, published is true and the excerpt is null; with the
   * exercise's "PHP 8 en pratique", "300" and "Yassine" this is its output.
   */
  lemma SampleBuilt(title: string, views: string, author: string)
    requires IsTrimmed(title) && IsTrimmed(author)
    requires views != [] && forall i :: 0 <= i < |views| ==> IsDigit(views[i])
    ensures BuildArticle(SampleInput(title, views, author)) ==
              BuiltArticle(title, None, DigitsValue(views), true, author)
  {
    var input := SampleInput(title, views, author);
    SampleLookup(title, views, author, "title");
    SampleLookup(title, views, author, "excerpt");
    SampleLookup(title, views, author, "views");
    SampleLookup(title, views, author, "author");
    SampleLookup(title, views, author, "published");
    TitleField(input);
    TrimOfTrimmed(title);
    AuthorField(input);
    TrimOfTrimmed(author);
    PublishedField(input);
    ExcerptField(input);
    TrimOfTrimmed("");
    ViewsField(input);
    StringToIntOfDigits(views);
  }

  /** The exercise's own input: 'PHP 8 en pratique', views '300', author 'Yassine', no published key. */
  lemma SampleBuiltValues(title: string, views: string, author: string)
    requires title == "PHP 8 en pratique" && views == "300" && author == "Yassine"
    ensures BuildArticle(SampleInput(title, views, author)) ==
              BuiltArticle("PHP 8 en pratique", None, 300, true, "Yassine")
  {
    assert IsTrimmed(title) && IsTrimmed(author);
    assert forall i :: 0 <= i < |views| ==> IsDigit(views[i]);
    SampleBuilt(title, views, author);
    SampleViews(views);
  }

  lemma SampleViews(views: string)
    requires views == "300"
    ensures forall i :: 0 <= i < |views| ==> IsDigit(views[i])
    ensures DigitsValue(views) == 300
  {
    assert views[..2] == "30" && views[2] == '0';
    assert "30"[..1] == "3" && "30"[1] == '0';
    assert "3"[..0] == "" && "3"[0] == '3';
  }
}
