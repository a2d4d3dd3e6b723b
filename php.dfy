/**
 * The small part of PHP's runtime semantics the article routines rely on:
 * loosely typed values and arrays, the (string)/(int)/(bool) casts, empty(),
 * trim(), ASCII case mapping and decimal formatting of integers.
 * Floats are not modelled.
 */
module Php {

  datatype Option<+T> = None | Some(value: T)

  datatype Result<+T, +E> = Ok(value: T) | Err(error: E)

  /** A PHP array key: integer or string. */
  datatype Key = IntKey(i: int) | StrKey(s: string)

  /** A loosely typed PHP value; an array is an ordered list of key/value entries. */
  datatype Value =
    | Null
    | Bool(b: bool)
    | Int(i: int)
    | Str(s: string)
    | Arr(entries: seq<(Key, Value)>)

  /** A PHP array of string-keyed fields, in insertion order. */
  type Record = seq<(Key, Value)>

  // ---------------------------------------------------------------- strings

  /** The characters PHP's trim() strips by default: " \t\n\r\0\x0B". */
  predicate IsTrimChar(c: char)
  {
    c == ' ' || c == '\t' || c == '\n' || c == '\r' || c == '\0' || c == '\U{000B}'
  }

  /** The characters PCRE's \s matches: space, \t, \n, \x0B, \f, \r. */
  predicate IsRegexSpace(c: char)
  {
    c == ' ' || c == '\t' || c == '\n' || c == '\r' || c == '\U{000B}' || c == '\U{000C}'
  }

  function TrimLeft(s: string): (r: string)
    ensures |r| <= |s|
    ensures r == [] || !IsTrimChar(r[0])
    ensures forall i :: 0 <= i < |s| - |r| ==> IsTrimChar(s[i])
  {
    if s != [] && IsTrimChar(s[0]) then TrimLeft(s[1..]) else s
  }

  function TrimRight(s: string): (r: string)
    ensures |r| <= |s|
    ensures r == [] || !IsTrimChar(r[|r| - 1])
    ensures forall i :: |r| <= i < |s| ==> IsTrimChar(s[i])
  {
    if s != [] && IsTrimChar(s[|s| - 1]) then TrimRight(s[..|s| - 1]) else s
  }

  lemma {:induction false} TrimLeftSuffix(s: string)
    ensures TrimLeft(s) == s[|s| - |TrimLeft(s)|..]
  {
    if s != [] && IsTrimChar(s[0]) {
      TrimLeftSuffix(s[1..]);
    }
  }

  lemma {:induction false} TrimRightPrefix(s: string)
    ensures TrimRight(s) == s[..|TrimRight(s)|]
  {
    if s != [] && IsTrimChar(s[|s| - 1]) {
      TrimRightPrefix(s[..|s| - 1]);
    }
  }

  /** PHP trim($s) with the default character list. */
  function Trim(s: string): string
  {
    TrimRight(TrimLeft(s))
  }

  /** Has no character that trim() would strip at either end. */
  predicate IsTrimmed(s: string)
  {
    s == [] || (!IsTrimChar(s[0]) && !IsTrimChar(s[|s| - 1]))
  }

  /** Every character of s is one trim() strips. */
  predicate AllTrimChars(s: string)
  {
    forall i :: 0 <= i < |s| ==> IsTrimChar(s[i])
  }

  lemma TrimLeftParts(s: string) returns (pre: string)
    ensures s == pre + TrimLeft(s) && AllTrimChars(pre)
  {
    TrimLeftSuffix(s);
    var k := |s| - |TrimLeft(s)|;
    pre := s[..k];
    assert s == s[..k] + s[k..];
    assert forall i :: 0 <= i < k ==> pre[i] == s[i];
  }

  lemma TrimRightParts(s: string) returns (post: string)
    ensures s == TrimRight(s) + post && AllTrimChars(post)
  {
    TrimRightPrefix(s);
    var k := |TrimRight(s)|;
    post := s[k..];
    assert s == s[..k] + s[k..];
    assert forall i :: 0 <= i < |s| - k ==> post[i] == s[k + i];
  }

  /**
   * trim() cuts s into a run of trim characters, the result and another run
   * of trim characters, and the result is trimmed.
   */
  lemma TrimSpec(s: string) returns (pre: string, post: string)
    ensures s == pre + (Trim(s) + post)
    ensures AllTrimChars(pre) && AllTrimChars(post)
    ensures IsTrimmed(Trim(s))
  {
    var l := TrimLeft(s);
    pre := TrimLeftParts(s);
    post := TrimRightParts(l);
    TrimIsTrimmed(s);
  }

  lemma TrimIsTrimmed(s: string)
    ensures IsTrimmed(Trim(s))
  {
    var l := TrimLeft(s);
    var r := TrimRight(l);
    if r != [] {
      TrimRightPrefix(l);
      assert r[0] == l[0];
    }
  }

  lemma TrimOfTrimmed(s: string)
    requires IsTrimmed(s)
    ensures Trim(s) == s
  {
    assert TrimLeft(s) == s;
  }

  /** Trimming changes exactly the strings that are not already trimmed; in particular it is idempotent. */
  lemma TrimFixpoint(s: string)
    ensures Trim(s) == s <==> IsTrimmed(s)
    ensures Trim(Trim(s)) == Trim(s)
  {
    var pre, post := TrimSpec(s);
    if IsTrimmed(s) {
      TrimOfTrimmed(s);
    }
    TrimOfTrimmed(Trim(s));
  }

  function LowerChar(c: char): (r: char)
  {
    if 'A' <= c <= 'Z' then (c as int + 32) as char else c
  }

  function UpperChar(c: char): (r: char)
  {
    if 'a' <= c <= 'z' then (c as int - 32) as char else c
  }

  /** strtolower: ASCII letters only, as PHP 8 does. */
  function Lower(s: string): (r: string)
    ensures |r| == |s|
    ensures forall i :: 0 <= i < |s| ==> r[i] == LowerChar(s[i])
  {
    seq(|s|, i requires 0 <= i < |s| => LowerChar(s[i]))
  }

  lemma LowerAppend(a: string, b: string)
    ensures Lower(a + b) == Lower(a) + Lower(b)
  {
  }

  // ------------------------------------------------------- decimal numbers

  predicate IsDigit(c: char)
  {
    '0' <= c <= '9'
  }

  function DigitChar(d: nat): (c: char)
    requires d < 10
    ensures IsDigit(c) && c as int - '0' as int == d
  {
    ('0' as int + d) as char
  }

  /** The decimal representation of n, without leading zeros. */
  function NatToString(n: nat): (r: string)
    ensures |r| > 0
    ensures forall i :: 0 <= i < |r| ==> IsDigit(r[i])
  {
    if n < 10 then [DigitChar(n)] else NatToString(n / 10) + [DigitChar(n % 10)]
  }

  /** (string)$i for an integer. */
  function IntToString(i: int): string
  {
    if i < 0 then "-" + NatToString(-i) else NatToString(i)
  }

  /** The value of a string of decimal digits. */
  function DigitsValue(s: string): (n: nat)
    requires forall i :: 0 <= i < |s| ==> IsDigit(s[i])
  {
    if s == [] then 0
    else
      var c := s[|s| - 1];
      assert IsDigit(c);
      DigitsValue(s[..|s| - 1]) * 10 + (c as int - '0' as int)
  }

  /** The longest prefix of s made of digits. */
  function LeadingDigits(s: string): (r: string)
    ensures r <= s
    ensures forall i :: 0 <= i < |r| ==> IsDigit(r[i])
    ensures |r| == |s| || !IsDigit(s[|r|])
  {
    if s != [] && IsDigit(s[0]) then [s[0]] + LeadingDigits(s[1..]) else []
  }

  function SkipRegexSpace(s: string): (r: string)
    ensures |r| <= |s|
    ensures r == [] || !IsRegexSpace(r[0])
  {
    if s != [] && IsRegexSpace(s[0]) then SkipRegexSpace(s[1..]) else s
  }

  /**
   * (int)$s for a string: leading whitespace, an optional sign, then the longest
   * run of digits; a string without leading digits gives 0.
   */
  function StringToInt(s: string): int
  {
    var t := SkipRegexSpace(s);
    if t != [] && t[0] == '-' then 0 - DigitsValue(LeadingDigits(t[1..]))
    else if t != [] && t[0] == '+' then DigitsValue(LeadingDigits(t[1..]))
    else DigitsValue(LeadingDigits(t))
  }

  lemma {:induction false} DigitsValueOfNatToString(n: nat)
    ensures DigitsValue(NatToString(n)) == n
  {
    if n >= 10 {
      var s := NatToString(n);
      assert s[..|s| - 1] == NatToString(n / 10);
      DigitsValueOfNatToString(n / 10);
    }
  }

  lemma {:induction false} LeadingDigitsOfDigits(s: string, rest: string)
    requires forall i :: 0 <= i < |s| ==> IsDigit(s[i])
    requires rest == [] || !IsDigit(rest[0])
    ensures LeadingDigits(s + rest) == s
  {
    if s != [] {
      assert (s + rest)[1..] == s[1..] + rest;
      LeadingDigitsOfDigits(s[1..], rest);
    } else {
      assert s + rest == rest;
    }
  }

  lemma SkipRegexSpaceNone(s: string)
    requires s == [] || !IsRegexSpace(s[0])
    ensures SkipRegexSpace(s) == s
  {
  }

  lemma LeadingDigitsAll(d: string)
    requires forall i :: 0 <= i < |d| ==> IsDigit(d[i])
    ensures LeadingDigits(d) == d
  {
    LeadingDigitsOfDigits(d, []);
    assert d + [] == d;
  }

  lemma StringToIntOfDigits(d: string)
    requires d != [] && forall i :: 0 <= i < |d| ==> IsDigit(d[i])
    ensures StringToInt(d) == DigitsValue(d)
  {
    assert IsDigit(d[0]);
    SkipRegexSpaceNone(d);
    LeadingDigitsAll(d);
  }

  lemma StringToIntOfNegative(d: string)
    requires d != [] && forall i :: 0 <= i < |d| ==> IsDigit(d[i])
    ensures StringToInt("-" + d) == 0 - DigitsValue(d)
  {
    var m := "-" + d;
    assert m[0] == '-';
    SkipRegexSpaceNone(m);
    assert m[1..] == d;
    LeadingDigitsAll(d);
  }

  /** Casting the decimal text of an integer back with (int) gives the integer. */
  lemma IntStringRoundTrip(i: int)
    ensures StringToInt(IntToString(i)) == i
  {
    var n: nat := if i < 0 then -i else i;
    DigitsValueOfNatToString(n);
    if i < 0 {
      StringToIntOfNegative(NatToString(n));
    } else {
      StringToIntOfDigits(NatToString(n));
    }
  }

  /** Distinct numbers have distinct decimal texts. */
  lemma NatToStringInjective(m: nat, n: nat)
    ensures NatToString(m) == NatToString(n) ==> m == n
  {
    DigitsValueOfNatToString(m);
    DigitsValueOfNatToString(n);
  }

  // ---------------------------------------------------------------- explode

  /** explode($sep, $s) for a one-character separator: never an empty list. */
  function Explode(sep: char, s: string): (r: seq<string>)
    ensures |r| >= 1
  {
    if s == [] then [""]
    else
      var rest := Explode(sep, s[1..]);
      if s[0] == sep then [""] + rest
      else [[s[0]] + rest[0]] + rest[1..]
  }

  /** No piece of an explode contains the separator. */
  lemma {:induction false} ExplodePieces(sep: char, s: string)
    ensures forall i :: 0 <= i < |Explode(sep, s)| ==> sep !in Explode(sep, s)[i]
  {
    if s != [] {
      ExplodePieces(sep, s[1..]);
      var rest := Explode(sep, s[1..]);
      if s[0] != sep {
        var r := [[s[0]] + rest[0]] + rest[1..];
        assert forall i :: 1 <= i < |r| ==> r[i] == rest[i];
      }
    }
  }

  /** implode($sep, $parts) */
  function Implode(sep: char, parts: seq<string>): (r: string)
    requires |parts| >= 1
    decreases |parts|
  {
    if |parts| == 1 then parts[0] else parts[0] + [sep] + Implode(sep, parts[1..])
  }

  /** Joining the pieces with the separator gives back the exploded text. */
  lemma {:induction false} ImplodeExplode(sep: char, s: string)
    ensures Implode(sep, Explode(sep, s)) == s
  {
    if s != [] {
      var rest := Explode(sep, s[1..]);
      ImplodeExplode(sep, s[1..]);
      if s[0] == sep {
        assert ([""] + rest)[1..] == rest;
      } else {
        var r := [[s[0]] + rest[0]] + rest[1..];
        if |rest| > 1 {
          assert r[1..] == rest[1..];
          assert Implode(sep, rest) == rest[0] + [sep] + Implode(sep, rest[1..]);
        }
      }
    }
  }

  /** A piece without the separator explodes to itself. */
  lemma {:induction false} ExplodePiece(sep: char, p: string)
    requires sep !in p
    ensures Explode(sep, p) == [p]
  {
    if p != [] {
      ExplodePiece(sep, p[1..]);
      assert [p[0]] + p[1..] == p;
    }
  }

  /** A piece followed by the separator splits off in front. */
  lemma {:induction false} ExplodeCons(sep: char, p: string, q: string)
    requires sep !in p
    ensures Explode(sep, p + [sep] + q) == [p] + Explode(sep, q)
  {
    if p == [] {
      assert p + [sep] + q == [sep] + q;
      assert ([sep] + q)[1..] == q;
    } else {
      var s := p + [sep] + q;
      assert s[1..] == p[1..] + [sep] + q;
      ExplodeCons(sep, p[1..], q);
      assert [p[0]] + p[1..] == p;
    }
  }

  /** Exploding separator-free pieces joined by the separator gives them back. */
  lemma {:induction false} ExplodeImplode(sep: char, parts: seq<string>)
    requires |parts| >= 1
    requires forall i :: 0 <= i < |parts| ==> sep !in parts[i]
    ensures Explode(sep, Implode(sep, parts)) == parts
    decreases |parts|
  {
    if |parts| == 1 {
      ExplodePiece(sep, parts[0]);
    } else {
      ExplodeImplode(sep, parts[1..]);
      ExplodeCons(sep, parts[0], Implode(sep, parts[1..]));
      assert [parts[0]] + parts[1..] == parts;
    }
  }

  // ------------------------------------------------------------ PHP values

  /** $a[$k] for a string key: the value of the first entry with that key. */
  function Lookup(a: Record, k: string): Option<Value>
  {
    if a == [] then None
    else if a[0].0 == StrKey(k) then Some(a[0].1)
    else Lookup(a[1..], k)
  }

  /** Lookup finds a key exactly when some entry has it, and then its first entry. */
  lemma {:induction false} LookupSpec(a: Record, k: string)
    ensures Lookup(a, k).Some? <==> exists i :: 0 <= i < |a| && a[i].0 == StrKey(k)
    ensures Lookup(a, k).Some? ==>
              exists i :: 0 <= i < |a| && a[i] == (StrKey(k), Lookup(a, k).value) &&
                          forall j :: 0 <= j < i ==> a[j].0 != StrKey(k)
  {
    if a != [] && a[0].0 != StrKey(k) {
      LookupSpec(a[1..], k);
      assert forall i :: 0 < i < |a| ==> a[i] == a[1..][i - 1];
      if Lookup(a, k).Some? {
        var i :| 0 <= i < |a[1..]| && a[1..][i] == (StrKey(k), Lookup(a, k).value) &&
                 forall j :: 0 <= j < i ==> a[1..][j].0 != StrKey(k);
        assert a[i + 1] == (StrKey(k), Lookup(a, k).value);
        assert forall j :: 0 < j < i + 1 ==> a[j].0 != StrKey(k);
      }
    }
  }

  /** Looking past a first entry with another key. */
  lemma LookupCons(e: (Key, Value), rest: Record, k: string)
    ensures Lookup([e] + rest, k) == if e.0 == StrKey(k) then Some(e.1) else Lookup(rest, k)
  {
    assert ([e] + rest)[1..] == rest;
  }

  /** $a[$k]: an undefined key reads as null. */
  function Get(a: Record, k: string): Value
  {
    match Lookup(a, k)
    case Some(v) => v
    case None => Null
  }

  /** isset($a[$k]) */
  predicate Isset(a: Record, k: string)
  {
    Get(a, k) != Null
  }

  /** $a[$k] ?? $default */
  function Coalesce(a: Record, k: string, default: Value): (r: Value)
    ensures Isset(a, k) ==> r == Get(a, k)
    ensures !Isset(a, k) ==> r == default
  {
    if Isset(a, k) then Get(a, k) else default
  }

  /** `??` gives null only when the key is unset and the default is null. */
  lemma CoalesceNull(a: Record, k: string, default: Value)
    ensures Coalesce(a, k, default) == Null <==> !Isset(a, k) && default == Null
  {
  }

  /** With a null default, `$a[$k] ?? null` reads the same as `$a[$k]`. */
  lemma CoalesceNullDefault(a: Record, k: string)
    ensures Coalesce(a, k, Null) == Get(a, k)
  {
  }

  /** A set key makes the default irrelevant, and an unset key the stored value. */
  lemma CoalesceDefaults(a: Record, k: string, d1: Value, d2: Value)
    ensures Isset(a, k) ==> Coalesce(a, k, d1) == Coalesce(a, k, d2)
    ensures !Isset(a, k) ==> (Coalesce(a, k, d1) == Coalesce(a, k, d2) <==> d1 == d2)
  {
  }

  /** $a[$k] = $v: overwrite the first entry with key k in place, or append one. */
  function SetKey(a: Record, k: string, v: Value): (r: Record)
    ensures Get(r, k) == v
  {
    if a == [] then [(StrKey(k), v)]
    else if a[0].0 == StrKey(k) then [(StrKey(k), v)] + a[1..]
    else [a[0]] + SetKey(a[1..], k, v)
  }

  /** Setting one key leaves the lookup of every other key unchanged. */
  lemma {:induction false} SetKeyLookup(a: Record, k: string, v: Value, k2: string)
    ensures Lookup(SetKey(a, k, v), k2) == if k2 == k then Some(v) else Lookup(a, k2)
  {
    if a != [] && a[0].0 != StrKey(k) {
      SetKeyLookup(a[1..], k, v, k2);
    }
  }

  predicate IsArray(v: Value)
  {
    v.Arr?
  }

  predicate IsString(v: Value)
  {
    v.Str?
  }

  /** (string)$v */
  function ToStr(v: Value): string
  {
    match v
    case Null => ""
    case Bool(b) => if b then "1" else ""
    case Int(i) => IntToString(i)
    case Str(s) => s
    case Arr(_) => "Array"
  }

  /** (int)$v */
  function ToInt(v: Value): int
  {
    match v
    case Null => 0
    case Bool(b) => if b then 1 else 0
    case Int(i) => i
    case Str(s) => StringToInt(s)
    case Arr(e) => if e == [] then 0 else 1
  }

  /** (bool)$v: false exactly for null, false, 0, "", "0" and the empty array. */
  function ToBool(v: Value): bool
  {
    match v
    case Null => false
    case Bool(b) => b
    case Int(i) => i != 0
    case Str(s) => s != "" && s != "0"
    case Arr(e) => e != []
  }

  /** empty($v); an undefined key reads as null, so empty() of it holds. */
  predicate IsEmpty(v: Value)
  {
    !ToBool(v)
  }

  /** The string cast followed by the int cast is the identity on integers. */
  lemma IntCastRoundTrip(i: int)
    ensures ToInt(Str(ToStr(Int(i)))) == i
  {
    IntStringRoundTrip(i);
  }

  /** For strings, (bool) is false on exactly the two strings "" and "0". */
  lemma StringTruthiness(s: string)
    ensures !ToBool(Str(s)) <==> s == "" || s == "0"
    ensures ToBool(Str("false"))
  {
  }
}
