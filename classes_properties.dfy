/**
 * classes_properties/exercise.php: a User value with its initials and its
 * array form, and UserFactory::fromArray, which builds a User from a loose
 * input array. The User fields are set once by the constructor and never
 * changed, so a User is a value here.
 */
module ClassesProperties {
  import opened Php

  datatype User = User(id: int, name: string, email: string, bio: Option<string>, articlesCount: int)

  datatype UserError = EmailRequired   // InvalidArgumentException('email requis')

  // ------------------------------------------------------------ initials

  /** preg_split('/\s+/', $s): the pieces between runs of whitespace, empty ones at the ends included. */
  function SplitSpaces(s: string): (r: seq<string>)
    ensures |r| >= 1
    decreases |s|
  {
    if s == [] then [""]
    else if IsRegexSpace(s[0]) then [""] + SplitSpaces(SkipRegexSpace(s[1..]))
    else
      var rest := SplitSpaces(s[1..]);
      [[s[0]] + rest[0]] + rest[1..]
  }

  /** strtoupper(substr($p, 0, 1)) */
  function FirstLetter(p: string): string
  {
    if p == [] then [] else [UpperChar(p[0])]
  }

  /** implode('', array_map(..., $parts)) */
  function FirstLetters(parts: seq<string>): string
  {
    if parts == [] then [] else FirstLetter(parts[0]) + FirstLetters(parts[1..])
  }

  /** User::initials() */
  function Initials(name: string): string
  {
    FirstLetters(SplitSpaces(Trim(name)))
  }

  /** A word: not empty and free of whitespace. */
  predicate IsWord(w: string)
  {
    w != [] && forall i :: 0 <= i < |w| ==> !IsRegexSpace(w[i]) && !IsTrimChar(w[i])
  }

  lemma {:induction false} SplitWord(w: string, rest: string)
    requires forall i :: 0 <= i < |w| ==> !IsRegexSpace(w[i])
    ensures SplitSpaces(w + rest) ==
              [w + SplitSpaces(rest)[0]] + SplitSpaces(rest)[1..]
    decreases |w|
  {
    var sr := SplitSpaces(rest);
    if w != [] {
      SplitWord(w[1..], rest);
      var r := SplitSpaces(w[1..] + rest);
      assert r == [w[1..] + sr[0]] + sr[1..];
      assert r[0] == w[1..] + sr[0] && r[1..] == sr[1..];
      assert (w + rest)[0] == w[0] && (w + rest)[1..] == w[1..] + rest;
      assert SplitSpaces(w + rest) == [[w[0]] + r[0]] + r[1..];
      assert [w[0]] + (w[1..] + sr[0]) == w + sr[0];
    } else {
      assert w + rest == rest;
      assert w + sr[0] == sr[0];
      assert sr == [sr[0]] + sr[1..];
    }
  }

  /** Words joined by single spaces split back into those words. */
  lemma {:induction false} SplitImplode(words: seq<string>)
    requires |words| >= 1 && forall i :: 0 <= i < |words| ==> IsWord(words[i])
    ensures SplitSpaces(Implode(' ', words)) == words
    decreases |words|
  {
    var w := words[0];
    assert IsWord(w);
    if |words| == 1 {
      SplitWord(w, []);
      assert w + [] == w;
      assert SplitSpaces([]) == [""];
      assert w + "" == w;
      assert SplitSpaces(w) == [w];
    } else {
      var tail := Implode(' ', words[1..]);
      SplitImplode(words[1..]);
      var rest := [' '] + tail;
      assert Implode(' ', words) == w + rest;
      SplitWord(w, rest);
      assert words[1] == words[1..][0];
      ImplodeHead(words[1..]);
      assert tail != [] && !IsRegexSpace(tail[0]);
      assert rest[0] == ' ' && rest[1..] == tail;
      assert SkipRegexSpace(tail) == tail;
      assert SplitSpaces(rest) == [""] + SplitSpaces(tail);
      assert SplitSpaces(rest) == [""] + words[1..];
      assert w + "" == w;
      assert words == [w] + words[1..];
    }
  }

  lemma {:induction false} ImplodeHead(words: seq<string>)
    requires |words| >= 1 && IsWord(words[0])
    ensures Implode(' ', words) != [] && Implode(' ', words)[0] == words[0][0]
  {
  }

  lemma {:induction false} ImplodeLast(words: seq<string>)
    requires |words| >= 1 && IsWord(words[|words| - 1])
    ensures Implode(' ', words) != []
    ensures Implode(' ', words)[|Implode(' ', words)| - 1] == words[|words| - 1][|words[|words| - 1]| - 1]
    decreases |words|
  {
    if |words| > 1 {
      ImplodeLast(words[1..]);
    }
  }

  lemma {:induction false} FirstLettersOfWords(words: seq<string>)
    requires forall i :: 0 <= i < |words| ==> words[i] != []
    ensures FirstLetters(words) == seq(|words|, i requires 0 <= i < |words| => UpperChar(words[i][0]))
    decreases |words|
  {
    if words != [] {
      FirstLettersOfWords(words[1..]);
    }
  }

  /**
   * For a name made of words separated by single spaces, the initials are
   * the upper-cased first letters of the words, in order; with
   * "Amina Zouhair" that is "AZ".
   */
  lemma InitialsOfWords(words: seq<string>)
    requires |words| >= 1 && forall i :: 0 <= i < |words| ==> IsWord(words[i])
    ensures Initials(Implode(' ', words)) == seq(|words|, i requires 0 <= i < |words| && IsWord(words[i]) => UpperChar(words[i][0]))
  {
    var name := Implode(' ', words);
    ImplodeHead(words);
    ImplodeLast(words);
    TrimOfTrimmed(name);
    SplitImplode(words);
    FirstLettersOfWords(words);
  }

  /** The exercise's own user: "Amina Zouhair" has the initials "AZ". */
  lemma SampleInitials()
    ensures Initials("Amina Zouhair") == "AZ"
  {
    var words := ["Amina", "Zouhair"];
    assert Implode(' ', words) == "Amina Zouhair";
    InitialsOfWords(words);
  }

  /**
   * The upper-cased characters that start a run of non-whitespace in s;
   * afterSpace says whether the character before s was whitespace, or
   * whether there was none.
   */
  function WordStarts(s: string, afterSpace: bool): string
  {
    if s == [] then []
    else
      (if afterSpace && !IsRegexSpace(s[0]) then [UpperChar(s[0])] else []) +
      WordStarts(s[1..], IsRegexSpace(s[0]))
  }

  lemma {:induction false} SkipSpaceStarts(s: string)
    ensures WordStarts(SkipRegexSpace(s), true) == WordStarts(s, true)
    decreases |s|
  {
    if s != [] && IsRegexSpace(s[0]) {
      SkipSpaceStarts(s[1..]);
    }
  }

  lemma FirstLettersCons(p: string, parts: seq<string>)
    ensures FirstLetters([p] + parts) == FirstLetter(p) + FirstLetters(parts)
  {
    assert ([p] + parts)[1..] == parts;
  }

  /**
   * Splitting on runs of whitespace and keeping the first letter of every
   * piece finds exactly the starts of the words; the pieces after the first
   * find those after the first character.
   */
  lemma {:induction false} FirstLettersOfSplit(s: string)
    ensures FirstLetters(SplitSpaces(s)) == WordStarts(s, true)
    ensures FirstLetters(SplitSpaces(s)[1..]) == WordStarts(s, false)
    decreases |s|
  {
    if s == [] {
      assert SplitSpaces(s) == [""];
      FirstLettersCons("", []);
    } else if IsRegexSpace(s[0]) {
      var t := SkipRegexSpace(s[1..]);
      FirstLettersOfSplit(t);
      SkipSpaceStarts(s[1..]);
      assert SplitSpaces(s) == [""] + SplitSpaces(t);
      assert SplitSpaces(s)[1..] == SplitSpaces(t);
      FirstLettersCons("", SplitSpaces(t));
    } else {
      FirstLettersOfSplit(s[1..]);
      var rest := SplitSpaces(s[1..]);
      assert SplitSpaces(s) == [[s[0]] + rest[0]] + rest[1..];
      assert SplitSpaces(s)[1..] == rest[1..];
      FirstLettersCons([s[0]] + rest[0], rest[1..]);
    }
  }

  /**
   * The initials of any name: the upper-cased first character of each
   * whitespace-separated word of the trimmed name, in order.
   */
  lemma InitialsSpec(name: string)
    ensures Initials(name) == WordStarts(Trim(name), true)
  {
    FirstLettersOfSplit(Trim(name));
  }

  predicate AllSpace(s: string)
  {
    forall i :: 0 <= i < |s| ==> IsRegexSpace(s[i])
  }

  predicate NoSpace(w: string)
  {
    forall i :: 0 <= i < |w| ==> !IsRegexSpace(w[i])
  }

  /** words[0] + seps[0] + words[1] + ... + words[|words| - 1] */
  function Joined(words: seq<string>, seps: seq<string>): string
    requires |words| >= 1 && |seps| == |words| - 1
  {
    if |words| == 1 then words[0] else words[0] + (seps[0] + Joined(words[1..], seps[1..]))
  }

  lemma {:induction false} WordStartsAppend(a: string, b: string, afterSpace: bool)
    ensures WordStarts(a + b, afterSpace) ==
              WordStarts(a, afterSpace) + WordStarts(b, if a == [] then afterSpace else IsRegexSpace(a[|a| - 1]))
    decreases |a|
  {
    if a != [] {
      WordStartsAppend(a[1..], b, IsRegexSpace(a[0]));
      assert (a + b)[1..] == a[1..] + b;
    } else {
      assert a + b == b;
    }
  }

  lemma {:induction false} WordStartsOfSpace(s: string, afterSpace: bool)
    requires AllSpace(s)
    ensures WordStarts(s, afterSpace) == []
    decreases |s|
  {
    if s != [] {
      WordStartsOfSpace(s[1..], true);
    }
  }

  lemma {:induction false} WordStartsInWord(w: string)
    requires NoSpace(w)
    ensures WordStarts(w, false) == []
    decreases |w|
  {
    if w != [] {
      WordStartsInWord(w[1..]);
    }
  }

  /** Words separated by runs of whitespace start where the words do. */
  lemma {:induction false} WordStartsOfJoined(words: seq<string>, seps: seq<string>)
    requires |words| >= 1 && |seps| == |words| - 1
    requires forall i :: 0 <= i < |words| ==> words[i] != [] && NoSpace(words[i])
    requires forall i :: 0 <= i < |seps| ==> seps[i] != [] && AllSpace(seps[i])
    ensures WordStarts(Joined(words, seps), true) ==
              seq(|words|, i requires 0 <= i < |words| && words[i] != [] => UpperChar(words[i][0]))
    decreases |words|
  {
    var w := words[0];
    WordStartsInWord(w[1..]);
    assert WordStarts(w, true) == [UpperChar(w[0])];
    if |words| > 1 {
      var rest := Joined(words[1..], seps[1..]);
      WordStartsOfJoined(words[1..], seps[1..]);
      WordStartsAppend(seps[0], rest, false);
      WordStartsOfSpace(seps[0], false);
      WordStartsAppend(w, seps[0] + rest, true);
    }
  }

  /**
   * Words separated by non-empty runs of whitespace, with whitespace
   * allowed before and after, start exactly at the words.
   */
  lemma WordStartsOfRuns(pre: string, words: seq<string>, seps: seq<string>, post: string)
    requires AllSpace(pre) && AllSpace(post)
    requires |words| >= 1 && |seps| == |words| - 1
    requires forall i :: 0 <= i < |words| ==> words[i] != [] && NoSpace(words[i])
    requires forall i :: 0 <= i < |seps| ==> seps[i] != [] && AllSpace(seps[i])
    ensures WordStarts(pre + (Joined(words, seps) + post), true) ==
              seq(|words|, i requires 0 <= i < |words| && words[i] != [] => UpperChar(words[i][0]))
  {
    var j := Joined(words, seps);
    WordStartsOfJoined(words, seps);
    WordStartsAppend(pre, j + post, true);
    WordStartsOfSpace(pre, true);
    WordStartsAppend(j, post, true);
    WordStartsOfSpace(post, IsRegexSpace(j[|j| - 1]));
  }

  lemma {:induction false} JoinedLast(words: seq<string>, seps: seq<string>)
    requires |words| >= 1 && |seps| == |words| - 1 && words[|words| - 1] != []
    ensures var j, w := Joined(words, seps), words[|words| - 1];
            j != [] && j[|j| - 1] == w[|w| - 1]
    decreases |words|
  {
    if |words| > 1 {
      JoinedLast(words[1..], seps[1..]);
    }
  }

  lemma {:induction false} TrimLeftAppend(p: string, m: string)
    requires m != [] && !IsTrimChar(m[0])
    ensures TrimLeft(p + m) == TrimLeft(p) + m
    decreases |p|
  {
    if p == [] {
      assert p + m == m;
    } else if IsTrimChar(p[0]) {
      TrimLeftAppend(p[1..], m);
      assert (p + m)[1..] == p[1..] + m;
    }
  }

  lemma {:induction false} TrimRightAppend(m: string, q: string)
    requires m != [] && !IsTrimChar(m[|m| - 1])
    ensures TrimRight(m + q) == m + TrimRight(q)
    decreases |q|
  {
    if q == [] {
      assert m + q == m;
    } else if IsTrimChar(q[|q| - 1]) {
      TrimRightAppend(m, q[..|q| - 1]);
      assert (m + q)[..|m + q| - 1] == m + q[..|q| - 1];
    }
  }

  /**
   * A name made of words separated by non-empty runs of whitespace, with
   * any whitespace before and after, has as initials the upper-cased first
   * letters of the words, in order. A leading \f, which trim() keeps,
   * and doubled spaces or tabs between words add no initial.
   */
  lemma InitialsOfRuns(name: string, pre: string, words: seq<string>, seps: seq<string>, post: string)
    requires AllSpace(pre) && AllSpace(post)
    requires |words| >= 1 && |seps| == |words| - 1
    requires forall i :: 0 <= i < |words| ==> words[i] != [] && NoSpace(words[i])
    requires forall i :: 0 <= i < |seps| ==> seps[i] != [] && AllSpace(seps[i])
    requires !IsTrimChar(words[0][0])
    requires var w := words[|words| - 1]; !IsTrimChar(w[|w| - 1])
    requires name == pre + (Joined(words, seps) + post)
    ensures Initials(name) ==
              seq(|words|, i requires 0 <= i < |words| && words[i] != [] => UpperChar(words[i][0]))
  {
    var j := Joined(words, seps);
    JoinedLast(words, seps);
    assert j[0] == words[0][0];
    TrimLeftAppend(pre, j + post);
    var pre' := TrimLeft(pre);
    TrimLeftSuffix(pre);
    assert AllSpace(pre') by {
      forall i | 0 <= i < |pre'| ensures IsRegexSpace(pre'[i]) {
        assert pre'[i] == pre[|pre| - |pre'| + i];
      }
    }
    assert pre' + (j + post) == (pre' + j) + post;
    TrimRightAppend(pre' + j, post);
    var post' := TrimRight(post);
    TrimRightPrefix(post);
    assert AllSpace(post') by {
      forall i | 0 <= i < |post'| ensures IsRegexSpace(post'[i]) {
        assert post'[i] == post[i];
      }
    }
    assert Trim(name) == pre' + (j + post');
    InitialsSpec(name);
    WordStartsOfRuns(pre', words, seps, post');
  }

  /** A leading form feed and a run of blanks and a tab between the words still give "AZ". */
  lemma SpacedInitials(name: string)
    requires name == "\U{000C}Amina \t Zouhair "
    ensures Initials(name) == "AZ"
  {
    var words, seps := ["Amina", "Zouhair"], [" \t "];
    assert name == "\U{000C}" + (Joined(words, seps) + " ");
    InitialsOfRuns(name, "\U{000C}", words, seps, " ");
  }

  /** A name that is blank once trimmed has no initials. */
  lemma BlankNameInitials(name: string)
    requires Trim(name) == ""
    ensures Initials(name) == ""
  {
  }

  // ------------------------------------------------------------ toArray

  /** User::toArray(): the fields unchanged, then the initials. */
  function ToArray(u: User): Record
  {
    [(StrKey("id"), Int(u.id))] + ([(StrKey("name"), Str(u.name))] + ([(StrKey("email"), Str(u.email))] +
      ([(StrKey("bio"), if u.bio.Some? then Str(u.bio.value) else Null)] +
        ([(StrKey("articlesCount"), Int(u.articlesCount))] + [(StrKey("initials"), Str(Initials(u.name)))]))))
  }

  /** Reading the array form back gives every field, and the initials of the name. */
  lemma ToArrayFields(u: User)
    ensures Get(ToArray(u), "id") == Int(u.id)
    ensures Get(ToArray(u), "name") == Str(u.name)
    ensures Get(ToArray(u), "email") == Str(u.email)
    ensures Get(ToArray(u), "bio") == (if u.bio.Some? then Str(u.bio.value) else Null)
    ensures Get(ToArray(u), "articlesCount") == Int(u.articlesCount)
    ensures Get(ToArray(u), "initials") == Str(Initials(u.name))
  {
    var e0, e1, e2 := (StrKey("id"), Int(u.id)), (StrKey("name"), Str(u.name)), (StrKey("email"), Str(u.email));
    var e3 := (StrKey("bio"), if u.bio.Some? then Str(u.bio.value) else Null);
    var e4, e5 := (StrKey("articlesCount"), Int(u.articlesCount)), (StrKey("initials"), Str(Initials(u.name)));
    var r5 := [e5];
    var r4 := [e4] + r5;
    var r3 := [e3] + r4;
    var r2 := [e2] + r3;
    var r1 := [e1] + r2;
    LookupCons(e0, r1, "id");
    LookupCons(e0, r1, "name");
    LookupCons(e1, r2, "name");
    LookupCons(e0, r1, "email");
    LookupCons(e1, r2, "email");
    LookupCons(e2, r3, "email");
    LookupCons(e0, r1, "bio");
    LookupCons(e1, r2, "bio");
    LookupCons(e2, r3, "bio");
    LookupCons(e3, r4, "bio");
    LookupCons(e0, r1, "articlesCount");
    LookupCons(e1, r2, "articlesCount");
    LookupCons(e2, r3, "articlesCount");
    LookupCons(e3, r4, "articlesCount");
    LookupCons(e4, r5, "articlesCount");
    LookupCons(e0, r1, "initials");
    LookupCons(e1, r2, "initials");
    LookupCons(e2, r3, "initials");
    LookupCons(e3, r4, "initials");
    LookupCons(e4, r5, "initials");
    LookupCons(e5, [], "initials");
  }

  // ------------------------------------------------------------ fromArray

  /** $email in fromArray: the trimmed string cast, '' when missing. */
  function Email(u: Record): string
  {
    Trim(ToStr(Coalesce(u, "email", Str(""))))
  }

  /** UserFactory::fromArray($u) */
  function FromArray(u: Record): Result<User, UserError>
  {
    var id := ToInt(Coalesce(u, "id", Int(0)));
    var name := Trim(ToStr(Coalesce(u, "name", Str("Inconnu"))));
    var email := Email(u);
    if email == "" then Err(EmailRequired)
    else
      var bio := if Isset(u, "bio") then Some(ToStr(Get(u, "bio"))) else None;
      Ok(User(if id < 1 then 1 else id, name, email, bio, ToInt(Coalesce(u, "articlesCount", Int(0)))))
  }

  /** The email is required: fromArray fails exactly when it is missing, null or blank. */
  lemma FromArrayEmail(u: Record)
    ensures FromArray(u).Err? <==> !Isset(u, "email") || Trim(ToStr(Get(u, "email"))) == ""
    ensures FromArray(u).Ok? ==>
              && FromArray(u).value.email == Trim(ToStr(Get(u, "email")))
              && FromArray(u).value.email != "" && IsTrimmed(FromArray(u).value.email)
  {
    var e := Email(u);
    assert FromArray(u).Err? <==> e == "";
    if Isset(u, "email") {
      assert e == Trim(ToStr(Get(u, "email")));
      TrimFixpoint(ToStr(Get(u, "email")));
    } else {
      assert e == Trim("");
    }
  }

  /** The id is at least 1: the cast when that is positive, 1 otherwise and when missing. */
  lemma FromArrayId(u: Record)
    requires FromArray(u).Ok?
    ensures FromArray(u).value.id >= 1
    ensures !Isset(u, "id") ==> FromArray(u).value.id == 1
    ensures ToInt(Get(u, "id")) >= 1 ==> FromArray(u).value.id == ToInt(Get(u, "id"))
    ensures Isset(u, "id") && ToInt(Get(u, "id")) < 1 ==> FromArray(u).value.id == 1
  {
  }

  /** The name is the trimmed cast, or "Inconnu" when missing or null. */
  lemma FromArrayName(u: Record)
    requires FromArray(u).Ok?
    ensures !Isset(u, "name") ==> FromArray(u).value.name == "Inconnu"
    ensures Isset(u, "name") ==> FromArray(u).value.name == Trim(ToStr(Get(u, "name")))
    ensures IsTrimmed(FromArray(u).value.name)
  {
    TrimFixpoint(ToStr(Coalesce(u, "name", Str("Inconnu"))));
  }

  /**
   * bio is null exactly when missing or null, else its string cast;
   * articlesCount is the (int) cast, 0 when missing, and not clamped.
   */
  lemma FromArrayBioCount(u: Record)
    requires FromArray(u).Ok?
    ensures FromArray(u).value.bio.None? <==> !Isset(u, "bio")
    ensures FromArray(u).value.bio.Some? ==> FromArray(u).value.bio.value == ToStr(Get(u, "bio"))
    ensures !Isset(u, "articlesCount") ==> FromArray(u).value.articlesCount == 0
    ensures Isset(u, "articlesCount") ==> FromArray(u).value.articlesCount == ToInt(Get(u, "articlesCount"))
    ensures forall n :: Get(u, "articlesCount") == Int(n) ==> FromArray(u).value.articlesCount == n
  {
  }
}
