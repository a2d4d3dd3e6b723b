/**
 * The slug normalizer shared by encapsulation.php, Files_JSON/script.php and
 * Fonctions_tableaux/exercise.php:
 *   strtolower, then preg_replace('/[^a-z0-9]+/i', '-', ...), then trim(..., '-').
 */
module Slug {
  import opened Php

  /** The regex class [a-z0-9] under the /i flag: ASCII letters and digits. */
  predicate IsWordChar(c: char)
  {
    'a' <= c <= 'z' || 'A' <= c <= 'Z' || '0' <= c <= '9'
  }

  predicate IsUpper(c: char)
  {
    'A' <= c <= 'Z'
  }

  /** The alphabet of a slug: [a-z0-9-]. */
  predicate IsSlugChar(c: char)
  {
    'a' <= c <= 'z' || '0' <= c <= '9' || c == '-'
  }

  predicate DashOrWord(s: string)
  {
    forall i :: 0 <= i < |s| ==> s[i] == '-' || IsWordChar(s[i])
  }

  predicate AllDashes(s: string)
  {
    forall i :: 0 <= i < |s| ==> s[i] == '-'
  }

  predicate NoDoubleDash(s: string)
  {
    forall i :: 0 <= i < |s| - 1 ==> !(s[i] == '-' && s[i + 1] == '-')
  }

  /** A well-formed slug: only [a-z0-9-], no leading or trailing '-', no "--". */
  predicate IsSlug(s: string)
  {
    SlugAlphabet(s) && NoDashAtEnds(s) && NoDoubleDash(s)
  }

  predicate SlugAlphabet(s: string)
  {
    forall i :: 0 <= i < |s| ==> IsSlugChar(s[i])
  }

  predicate NoDashAtEnds(s: string)
  {
    s == [] || (s[0] != '-' && s[|s| - 1] != '-')
  }

  /** Drops the rest of a run of non-word characters. */
  function SkipSeparators(s: string): (r: string)
    ensures |r| <= |s|
    ensures r == [] || IsWordChar(r[0])
    ensures forall i :: 0 <= i < |s| - |r| ==> !IsWordChar(s[i])
  {
    if s != [] && !IsWordChar(s[0]) then
      var r := SkipSeparators(s[1..]);
      assert forall i :: 1 <= i < |s| ==> s[i] == s[1..][i - 1];
      r
    else s
  }

  /** preg_replace('/[^a-z0-9]+/i', '-', s): each maximal run of non-word characters becomes one '-'. */
  function CollapseRuns(s: string): string
    decreases |s|
  {
    if s == [] then []
    else if IsWordChar(s[0]) then [s[0]] + CollapseRuns(s[1..])
    else "-" + CollapseRuns(SkipSeparators(s[1..]))
  }

  lemma DashOrWordCons(c: char, s: string)
    requires (c == '-' || IsWordChar(c)) && DashOrWord(s)
    ensures DashOrWord([c] + s)
  {
    assert forall i :: 1 <= i <= |s| ==> ([c] + s)[i] == s[i - 1];
  }

  lemma NoDoubleDashCons(c: char, s: string)
    requires NoDoubleDash(s)
    requires c != '-' || s == [] || s[0] != '-'
    ensures NoDoubleDash([c] + s)
  {
    var r := [c] + s;
    forall i | 0 <= i < |r| - 1
      ensures !(r[i] == '-' && r[i + 1] == '-')
    {
      if i > 0 {
        assert r[i] == s[i - 1] && r[i + 1] == s[i];
      }
    }
  }

  /** The replacement output is empty exactly for empty input, and starts with '-' exactly when the input starts with a separator. */
  lemma CollapseRunsFirst(s: string)
    ensures CollapseRuns(s) == [] <==> s == []
    ensures CollapseRuns(s) != [] ==> (CollapseRuns(s)[0] == '-' <==> !IsWordChar(s[0]))
  {
  }

  /** The replacement outputs only word characters and single dashes. */
  lemma {:induction false} CollapseRunsShape(s: string)
    ensures DashOrWord(CollapseRuns(s))
    ensures NoDoubleDash(CollapseRuns(s))
    decreases |s|
  {
    if s == [] {
    } else if IsWordChar(s[0]) {
      CollapseRunsShape(s[1..]);
      DashOrWordCons(s[0], CollapseRuns(s[1..]));
      NoDoubleDashCons(s[0], CollapseRuns(s[1..]));
    } else {
      var t := SkipSeparators(s[1..]);
      CollapseRunsShape(t);
      CollapseRunsFirst(t);
      DashOrWordCons('-', CollapseRuns(t));
      NoDoubleDashCons('-', CollapseRuns(t));
      assert "-" + CollapseRuns(t) == ['-'] + CollapseRuns(t);
    }
  }

  predicate NoUpper(s: string)
  {
    forall i :: 0 <= i < |s| ==> !IsUpper(s[i])
  }

  lemma NoUpperDrop(s: string, k: nat)
    requires NoUpper(s) && k <= |s|
    ensures NoUpper(s[k..])
  {
    assert forall i :: 0 <= i < |s| - k ==> s[k..][i] == s[k + i];
  }

  lemma NoUpperCons(c: char, s: string)
    requires !IsUpper(c) && NoUpper(s)
    ensures NoUpper([c] + s)
  {
    assert forall i :: 1 <= i <= |s| ==> ([c] + s)[i] == s[i - 1];
  }

  /** The replacement introduces no upper-case letter: every word character it outputs comes from its input. */
  lemma {:induction false} CollapseRunsNoUpper(s: string)
    requires NoUpper(s)
    ensures NoUpper(CollapseRuns(s))
    decreases |s|
  {
    if s == [] {
    } else if IsWordChar(s[0]) {
      assert !IsUpper(s[0]);
      NoUpperDrop(s, 1);
      CollapseRunsNoUpper(s[1..]);
      NoUpperCons(s[0], CollapseRuns(s[1..]));
    } else {
      var t := SkipSeparators(s[1..]);
      SkipSeparatorsSuffix(s[1..]);
      NoUpperDrop(s, 1);
      NoUpperDrop(s[1..], |s[1..]| - |t|);
      CollapseRunsNoUpper(t);
      NoUpperCons('-', CollapseRuns(t));
      assert "-" + CollapseRuns(t) == ['-'] + CollapseRuns(t);
    }
  }

  function TrimDashLeft(s: string): (r: string)
    ensures |r| <= |s|
    ensures r == [] || r[0] != '-'
    ensures forall i :: 0 <= i < |s| - |r| ==> s[i] == '-'
  {
    if s != [] && s[0] == '-' then
      var r := TrimDashLeft(s[1..]);
      assert forall i :: 1 <= i < |s| ==> s[i] == s[1..][i - 1];
      r
    else s
  }

  function TrimDashRight(s: string): (r: string)
    ensures |r| <= |s|
    ensures r == [] || r[|r| - 1] != '-'
    ensures forall i :: |r| <= i < |s| ==> s[i] == '-'
  {
    if s != [] && s[|s| - 1] == '-' then TrimDashRight(s[..|s| - 1]) else s
  }

  lemma {:induction false} SkipSeparatorsSuffix(s: string)
    ensures SkipSeparators(s) == s[|s| - |SkipSeparators(s)|..]
  {
    if s != [] && !IsWordChar(s[0]) {
      SkipSeparatorsSuffix(s[1..]);
    }
  }

  lemma {:induction false} TrimDashLeftSuffix(s: string)
    ensures TrimDashLeft(s) == s[|s| - |TrimDashLeft(s)|..]
  {
    if s != [] && s[0] == '-' {
      TrimDashLeftSuffix(s[1..]);
    }
  }

  lemma {:induction false} TrimDashRightPrefix(s: string)
    ensures TrimDashRight(s) == s[..|TrimDashRight(s)|]
  {
    if s != [] && s[|s| - 1] == '-' {
      TrimDashRightPrefix(s[..|s| - 1]);
    }
  }

  /** trim($s, '-') */
  function TrimDashes(s: string): string
  {
    TrimDashRight(TrimDashLeft(s))
  }

  /** slugify($value) as written in all three source files. */
  function Slugify(title: string): string
  {
    TrimDashes(CollapseRuns(Lower(title)))
  }

  /** FeaturedArticle::slugify: the parent's slug behind a fixed prefix. */
  function FeaturedSlugify(title: string): string
  {
    "featured-" + Slugify(title)
  }

  /** The letters and digits of s, in order. */
  function WordChars(s: string): (r: string)
  {
    if s == [] then []
    else if IsWordChar(s[0]) then [s[0]] + WordChars(s[1..])
    else WordChars(s[1..])
  }

  // ------------------------------------------------------------ the lemmas

  lemma {:induction false} WordCharsAppend(a: string, b: string)
    ensures WordChars(a + b) == WordChars(a) + WordChars(b)
  {
    if a != [] {
      assert (a + b)[1..] == a[1..] + b;
      WordCharsAppend(a[1..], b);
    } else {
      assert a + b == b;
    }
  }

  lemma {:induction false} WordCharsOfSeparators(s: string)
    requires forall i :: 0 <= i < |s| ==> !IsWordChar(s[i])
    ensures WordChars(s) == []
  {
    if s != [] {
      WordCharsOfSeparators(s[1..]);
    }
  }

  lemma {:induction false} WordCharsSkipSeparators(s: string)
    ensures WordChars(SkipSeparators(s)) == WordChars(s)
  {
    if s != [] && !IsWordChar(s[0]) {
      WordCharsSkipSeparators(s[1..]);
    }
  }

  lemma {:induction false} WordCharsCollapseRuns(s: string)
    ensures WordChars(CollapseRuns(s)) == WordChars(s)
    decreases |s|
  {
    if s != [] {
      if IsWordChar(s[0]) {
        WordCharsCollapseRuns(s[1..]);
        assert ([s[0]] + CollapseRuns(s[1..]))[1..] == CollapseRuns(s[1..]);
      } else {
        var t := SkipSeparators(s[1..]);
        WordCharsCollapseRuns(t);
        WordCharsSkipSeparators(s[1..]);
        assert ("-" + CollapseRuns(t))[1..] == CollapseRuns(t);
      }
    }
  }

  lemma TrimDashLeftParts(s: string) returns (pre: string)
    ensures s == pre + TrimDashLeft(s) && AllDashes(pre)
  {
    TrimDashLeftSuffix(s);
    var k := |s| - |TrimDashLeft(s)|;
    pre := s[..k];
    assert s == s[..k] + s[k..];
    assert forall i :: 0 <= i < k ==> pre[i] == s[i];
  }

  lemma TrimDashRightParts(s: string) returns (post: string)
    ensures s == TrimDashRight(s) + post && AllDashes(post)
  {
    TrimDashRightPrefix(s);
    var k := |TrimDashRight(s)|;
    post := s[k..];
    assert s == s[..k] + s[k..];
    assert forall i :: 0 <= i < |s| - k ==> post[i] == s[k + i];
  }

  /** trim($s, '-') cuts s into a run of dashes, the result, and another run of dashes. */
  lemma TrimDashesParts(s: string) returns (pre: string, post: string)
    ensures s == pre + (TrimDashes(s) + post)
    ensures AllDashes(pre) && AllDashes(post)
  {
    pre := TrimDashLeftParts(s);
    post := TrimDashRightParts(TrimDashLeft(s));
  }

  /** The three character-level properties carry over from a string to any infix of it. */
  lemma InfixKeeps(p: string, m: string, q: string)
    ensures DashOrWord(p + (m + q)) ==> DashOrWord(m)
    ensures NoUpper(p + (m + q)) ==> NoUpper(m)
    ensures NoDoubleDash(p + (m + q)) ==> NoDoubleDash(m)
  {
    var s := p + (m + q);
    assert forall i :: 0 <= i < |m| ==> m[i] == s[|p| + i];
    if NoDoubleDash(s) {
      forall i | 0 <= i < |m| - 1
        ensures !(m[i] == '-' && m[i + 1] == '-')
      {
        assert m[i] == s[|p| + i] && m[i + 1] == s[|p| + i + 1];
      }
    }
  }

  lemma {:induction false} WordCharsOfDashes(s: string)
    requires AllDashes(s)
    ensures WordChars(s) == []
  {
    if s != [] {
      WordCharsOfDashes(s[1..]);
    }
  }

  lemma WordCharsTrimDashes(s: string)
    ensures WordChars(TrimDashes(s)) == WordChars(s)
  {
    var pre, post := TrimDashesParts(s);
    var r := TrimDashes(s);
    WordCharsAppend(pre, r + post);
    WordCharsAppend(r, post);
    WordCharsOfDashes(pre);
    WordCharsOfDashes(post);
  }

  /** The slug keeps every letter and digit of the title, lowercased and in order, and adds nothing but dashes. */
  lemma SlugifyKeepsWordChars(title: string)
    ensures WordChars(Slugify(title)) == WordChars(Lower(title))
    ensures DashOrWord(Slugify(title))
  {
    var c := CollapseRuns(Lower(title));
    WordCharsCollapseRuns(Lower(title));
    WordCharsTrimDashes(c);
    CollapseRunsShape(Lower(title));
    var pre, post := TrimDashesParts(c);
    InfixKeeps(pre, TrimDashes(c), post);
  }

  lemma LowerHasNoUpper(s: string)
    ensures NoUpper(Lower(s))
  {
    forall i | 0 <= i < |s|
      ensures !IsUpper(Lower(s)[i])
    {
      assert Lower(s)[i] == LowerChar(s[i]);
    }
  }

  lemma SlugAlphabetOf(s: string)
    requires DashOrWord(s) && NoUpper(s)
    ensures SlugAlphabet(s)
  {
    forall i | 0 <= i < |s|
      ensures IsSlugChar(s[i])
    {
      assert s[i] == '-' || IsWordChar(s[i]);
      assert !IsUpper(s[i]);
    }
  }

  lemma TrimDashesEnds(s: string)
    ensures NoDashAtEnds(TrimDashes(s))
  {
    var l := TrimDashLeft(s);
    var r := TrimDashRight(l);
    TrimDashRightPrefix(l);
    if r != [] {
      assert r[0] == l[0];
    }
  }

  /** Trimming dashes from well-formed replacement output gives a well-formed slug. */
  lemma TrimDashesMakesSlug(c: string)
    requires DashOrWord(c) && NoUpper(c) && NoDoubleDash(c)
    ensures IsSlug(TrimDashes(c))
  {
    var r := TrimDashes(c);
    var pre, post := TrimDashesParts(c);
    InfixKeeps(pre, r, post);
    SlugAlphabetOf(r);
    TrimDashesEnds(c);
  }

  /** Every slug is well formed: alphabet [a-z0-9-], no dash at either end, no "--". */
  lemma SlugifyIsSlug(title: string)
    ensures IsSlug(Slugify(title))
  {
    var low := Lower(title);
    CollapseRunsShape(low);
    LowerHasNoUpper(title);
    CollapseRunsNoUpper(low);
    TrimDashesMakesSlug(CollapseRuns(low));
  }

  lemma LowerOfSlug(s: string)
    requires forall i :: 0 <= i < |s| ==> IsSlugChar(s[i])
    ensures Lower(s) == s
  {
  }

  lemma {:induction false} CollapseRunsOfSlugText(s: string)
    requires forall i :: 0 <= i < |s| ==> IsSlugChar(s[i])
    requires NoDoubleDash(s)
    ensures CollapseRuns(s) == s
    decreases |s|
  {
    if s != [] {
      var tail := s[1..];
      assert forall i :: 0 <= i < |tail| ==> tail[i] == s[i + 1];
      if IsWordChar(s[0]) {
        CollapseRunsOfSlugText(tail);
      } else {
        assert s[0] == '-';
        assert tail == [] || (tail[0] != '-' && IsWordChar(tail[0]));
        assert SkipSeparators(tail) == tail;
        CollapseRunsOfSlugText(tail);
      }
    }
  }

  /** A well-formed slug is left unchanged by slugify. */
  lemma SlugifyOfSlug(s: string)
    requires IsSlug(s)
    ensures Slugify(s) == s
  {
    LowerOfSlug(s);
    CollapseRunsOfSlugText(s);
    assert TrimDashLeft(s) == s;
  }

  /** slugify fixes exactly the well-formed slugs, so it is idempotent. */
  lemma SlugifyIdempotent(title: string)
    ensures Slugify(Slugify(title)) == Slugify(title)
    ensures Slugify(title) == title <==> IsSlug(title)
  {
    SlugifyIsSlug(title);
    SlugifyOfSlug(Slugify(title));
    if IsSlug(title) {
      SlugifyOfSlug(title);
    }
  }

  /** A title that starts with a letter or digit gives a slug that starts with it, lowercased. */
  lemma SlugifyHead(title: string)
    requires title != [] && IsWordChar(title[0])
    ensures Slugify(title) != [] && Slugify(title)[0] == LowerChar(title[0])
  {
    var l := Lower(title);
    var c := CollapseRuns(l);
    assert c == [l[0]] + CollapseRuns(l[1..]);
    assert TrimDashLeft(c) == c;
    var post := TrimDashRightParts(c);
  }

  /** "featured-" followed by a slug is a slug exactly when that slug is not empty. */
  lemma FeaturedPrefixSlug(t: string)
    requires IsSlug(t)
    ensures IsSlug("featured-" + t) <==> t != []
  {
    var p := "featured-";
    var f := p + t;
    if t == [] {
      assert f == p;
      assert f[8] == '-';
    } else {
      forall i | 0 <= i < |f| ensures IsSlugChar(f[i]) {
        if i >= 9 {
          assert f[i] == t[i - 9];
        } else {
          assert f[i] == p[i];
        }
      }
      forall i | 0 <= i < |f| - 1 ensures !(f[i] == '-' && f[i + 1] == '-') {
        if i >= 9 {
          assert f[i] == t[i - 9] && f[i + 1] == t[i - 8];
        } else if i == 8 {
          assert f[i + 1] == t[0];
        } else {
          assert f[i] == p[i] && f[i + 1] == p[i + 1];
        }
      }
      assert f[|f| - 1] == t[|t| - 1];
      assert f[0] == 'f';
    }
  }

  /** The featured slug starts with "featured-" and is well formed exactly when the plain slug is not empty. */
  lemma FeaturedSlugifyIsSlug(title: string)
    ensures FeaturedSlugify(title)[..9] == "featured-"
    ensures IsSlug(FeaturedSlugify(title)) <==> Slugify(title) != []
  {
    var t := Slugify(title);
    assert ("featured-" + t)[..9] == "featured-";
    SlugifyIsSlug(title);
    FeaturedPrefixSlug(t);
  }

  // ---------------------------------------------------- slugs of phrases

  predicate AllWordChars(s: string)
  {
    forall i :: 0 <= i < |s| ==> IsWordChar(s[i])
  }

  predicate NoWordChars(s: string)
  {
    forall i :: 0 <= i < |s| ==> !IsWordChar(s[i])
  }

  lemma LowerWordChars(w: string)
    requires AllWordChars(w)
    ensures AllWordChars(Lower(w))
  {
  }

  lemma LowerSeparators(s: string)
    requires NoWordChars(s)
    ensures Lower(s) == s
  {
    assert forall i :: 0 <= i < |s| ==> Lower(s)[i] == s[i];
  }

  lemma {:induction false} CollapseRunsWord(w: string, rest: string)
    requires AllWordChars(w)
    ensures CollapseRuns(w + rest) == w + CollapseRuns(rest)
    decreases |w|
  {
    if w == [] {
      assert w + rest == rest;
    } else {
      assert (w + rest)[0] == w[0] && (w + rest)[1..] == w[1..] + rest;
      CollapseRunsWord(w[1..], rest);
      assert w == [w[0]] + w[1..];
    }
  }

  lemma {:induction false} SkipSeparatorsRun(sep: string, rest: string)
    requires NoWordChars(sep)
    requires rest == [] || IsWordChar(rest[0])
    ensures SkipSeparators(sep + rest) == rest
    decreases |sep|
  {
    if sep == [] {
      assert sep + rest == rest;
    } else {
      assert (sep + rest)[0] == sep[0] && (sep + rest)[1..] == sep[1..] + rest;
      SkipSeparatorsRun(sep[1..], rest);
    }
  }

  /** A whole run of separators before a letter or digit becomes one dash. */
  lemma CollapseRunsSeparator(sep: string, rest: string)
    requires sep != [] && NoWordChars(sep)
    requires rest == [] || IsWordChar(rest[0])
    ensures CollapseRuns(sep + rest) == "-" + CollapseRuns(rest)
  {
    assert (sep + rest)[0] == sep[0] && (sep + rest)[1..] == sep[1..] + rest;
    SkipSeparatorsRun(sep[1..], rest);
  }

  lemma {:induction false} TrimDashRightAppend(m: string, q: string)
    requires q != [] && q[0] != '-'
    ensures TrimDashRight(m + q) == m + TrimDashRight(q)
    decreases |q|
  {
    var s := m + q;
    if q[|q| - 1] == '-' {
      assert |q| >= 2;
      assert s[..|s| - 1] == m + q[..|q| - 1];
      TrimDashRightAppend(m, q[..|q| - 1]);
    }
  }

  /** A title made of letters and digits only is its own slug, lowercased. */
  lemma SlugifyWord(w: string)
    requires AllWordChars(w)
    ensures Slugify(w) == Lower(w)
  {
    LowerWordChars(w);
    CollapseRunsWord(Lower(w), []);
    assert Lower(w) + [] == Lower(w);
  }

  /**
   * A word, a run of separators, then text starting with a letter or
   * digit: the slug is the lowercased word, one dash, then the slug of
   * the text.
   */
  lemma SlugifyJoin(w: string, sep: string, t: string)
    requires w != [] && AllWordChars(w)
    requires sep != [] && NoWordChars(sep)
    requires t != [] && IsWordChar(t[0])
    ensures Slugify(w + (sep + t)) == Lower(w) + ("-" + Slugify(t))
  {
    var lw, lt := Lower(w), Lower(t);
    LowerAppend(w, sep + t);
    LowerAppend(sep, t);
    LowerSeparators(sep);
    LowerWordChars(w);
    assert Lower(w + (sep + t)) == lw + (sep + lt);
    assert IsWordChar(lt[0]);
    CollapseRunsSeparator(sep, lt);
    CollapseRunsWord(lw, sep + lt);
    var c := CollapseRuns(lt);
    CollapseRunsFirst(lt);
    var s := lw + "-" + c;
    assert CollapseRuns(Lower(w + (sep + t))) == s;
    assert s[0] == lw[0];
    assert TrimDashLeft(s) == s;
    assert TrimDashLeft(c) == c;
    TrimDashRightAppend(lw + "-", c);
    assert lw + "-" + TrimDashRight(c) == lw + ("-" + TrimDashRight(c));
  }

  lemma LowerCons(c: char, s: string)
    ensures Lower([c] + s) == [LowerChar(c)] + Lower(s)
  {
    LowerAppend([c], s);
  }

  /** Two words of letters and digits, separated by a run of other characters. */
  lemma Slugify2(a: string, s1: string, b: string)
    requires a != [] && AllWordChars(a) && b != [] && AllWordChars(b)
    requires s1 != [] && NoWordChars(s1)
    ensures Slugify(a + (s1 + b)) == Lower(a) + ("-" + Lower(b))
  {
    SlugifyWord(b);
    SlugifyJoin(a, s1, b);
  }

  /** Three words of letters and digits, separated by runs of other characters. */
  lemma Slugify3(a: string, s1: string, b: string, s2: string, c: string)
    requires a != [] && AllWordChars(a) && b != [] && AllWordChars(b) && c != [] && AllWordChars(c)
    requires s1 != [] && NoWordChars(s1) && s2 != [] && NoWordChars(s2)
    ensures Slugify(a + (s1 + (b + (s2 + c)))) == Lower(a) + ("-" + (Lower(b) + ("-" + Lower(c))))
  {
    SlugifyWord(c);
    SlugifyJoin(b, s2, c);
    SlugifyJoin(a, s1, b + (s2 + c));
  }

  /** Four words of letters and digits, separated by runs of other characters. */
  lemma Slugify4(a: string, s1: string, b: string, s2: string, c: string, s3: string, d: string)
    requires a != [] && AllWordChars(a) && b != [] && AllWordChars(b)
    requires c != [] && AllWordChars(c) && d != [] && AllWordChars(d)
    requires s1 != [] && NoWordChars(s1) && s2 != [] && NoWordChars(s2) && s3 != [] && NoWordChars(s3)
    ensures Slugify(a + (s1 + (b + (s2 + (c + (s3 + d)))))) ==
              Lower(a) + ("-" + (Lower(b) + ("-" + (Lower(c) + ("-" + Lower(d))))))
  {
    Slugify3(b, s2, c, s3, d);
    SlugifyJoin(a, s1, b + (s2 + (c + (s3 + d))));
  }
}
