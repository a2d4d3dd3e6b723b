/**
 * Exceptions_gestion/exercise.php: check that a decoded JSON document is
 * an array of articles that each carry a non-empty string title and slug.
 * Reading the file and decoding the JSON are not modelled: the decoded
 * value is the input.
 */
module ExceptionsGestion {
  import opened Php

  /** The exceptions the exercise throws once the document is decoded. */
  datatype CheckError =
    | RootNotArray      // UnexpectedValueException from loadJson
    | NotAnArray        // TypeError: validateArticle declares an array parameter
    | TitleRequired     // DomainException "'title' requis"
    | SlugRequired      // DomainException "'slug' requis"

  /** The field is set, is a string, and is not exactly ''. */
  predicate Present(a: Record, k: string)
  {
    Isset(a, k) && IsString(Get(a, k)) && Get(a, k).s != ""
  }

  /** validateArticle($a): the title is checked before the slug. */
  function ValidateArticle(a: Value): (r: Option<CheckError>)
    ensures r == None <==> a.Arr? && Present(a.entries, "title") && Present(a.entries, "slug")
    ensures r == Some(TitleRequired) <==> a.Arr? && !Present(a.entries, "title")
    ensures r == Some(SlugRequired) <==> a.Arr? && Present(a.entries, "title") && !Present(a.entries, "slug")
  {
    if !a.Arr? then Some(NotAnArray)
    else if !Present(a.entries, "title") then Some(TitleRequired)
    else if !Present(a.entries, "slug") then Some(SlugRequired)
    else None
  }

  /** The values of an array, in order: what foreach visits. */
  function Values(entries: seq<(Key, Value)>): (r: seq<Value>)
    ensures |r| == |entries|
    ensures forall i :: 0 <= i < |entries| ==> r[i] == entries[i].1
  {
    seq(|entries|, i requires 0 <= i < |entries| => entries[i].1)
  }

  /** The error of the first invalid article from index i on, if any. */
  function FirstError(articles: seq<Value>, i: nat): (r: Option<CheckError>)
    requires i <= |articles|
    decreases |articles| - i
  {
    if i == |articles| then None
    else if ValidateArticle(articles[i]).Some? then ValidateArticle(articles[i])
    else FirstError(articles, i + 1)
  }

  /** loadJson's root check followed by main's validation loop: the article count or the error. */
  function Check(data: Value): Result<nat, CheckError>
  {
    if !IsArray(data) then Err(RootNotArray)
    else
      match FirstError(Values(data.entries), 0)
      case Some(e) => Err(e)
      case None => Ok(|data.entries|)
  }

  /** main(): loadJson's root check, then the foreach that validates each article in turn. */
  method RunMain(data: Value) returns (r: Result<nat, CheckError>)
    ensures r == Check(data)
  {
    if !IsArray(data) {
      return Err(RootNotArray);
    }
    var articles := Values(data.entries);
    var i := 0;
    while i < |articles|
      invariant 0 <= i <= |articles|
      invariant FirstError(articles, 0) == FirstError(articles, i)
    {
      var e := ValidateArticle(articles[i]);
      if e.Some? {
        return Err(e.value);
      }
      i := i + 1;
    }
    return Ok(|data.entries|);
  }

  /** The exit status: 0 on success, 1 for any exception. */
  function ExitCode(r: Result<nat, CheckError>): int
  {
    if r.Ok? then 0 else 1
  }

  /**
   * The loop stops at the first invalid article: the error reported is
   * that article's, and every article before it is valid.
   */
  lemma {:induction false} FirstErrorIsFirst(articles: seq<Value>, i: nat)
    requires i <= |articles|
    ensures FirstError(articles, i).None? <==>
              forall j :: i <= j < |articles| ==> ValidateArticle(articles[j]).None?
    ensures FirstError(articles, i).Some? ==>
              exists j :: i <= j < |articles| && ValidateArticle(articles[j]) == FirstError(articles, i) &&
                          forall l :: i <= l < j ==> ValidateArticle(articles[l]).None?
    decreases |articles| - i
  {
    if i < |articles| {
      FirstErrorIsFirst(articles, i + 1);
      if ValidateArticle(articles[i]).None? && FirstError(articles, i).Some? {
        var j :| i + 1 <= j < |articles| && ValidateArticle(articles[j]) == FirstError(articles, i + 1) &&
                 forall l :: i + 1 <= l < j ==> ValidateArticle(articles[l]).None?;
        assert forall l :: i <= l < j ==> ValidateArticle(articles[l]).None?;
      }
    }
  }

  /**
   * The exit status is 0 exactly when the root is an array all of whose
   * values are valid articles.
   */
  lemma ExitZero(data: Value)
    ensures ExitCode(Check(data)) == 0 <==>
              data.Arr? && forall j :: 0 <= j < |data.entries| ==> ValidateArticle(data.entries[j].1).None?
  {
    if data.Arr? {
      FirstErrorIsFirst(Values(data.entries), 0);
    }
  }

  /**
   * The check is `=== ''`, not empty(): the titles "0" and " " pass it,
   * and a title that is not a string fails whatever it holds.
   */
  lemma StrictEmptyTest(a: Record, t: string)
    requires Get(a, "title") == Str(t)
    ensures Present(a, "title") <==> t != ""
    ensures t == "0" || t == " " ==> Present(a, "title")
  {
  }
}
