/** ASCII models of the Go library string operations the module generator calls:
    `strings.ToLower`, `strings.ReplaceAll` with a one-character pattern, and
    `cases.Title(language.English)`.  Characters outside ASCII are left as they are. */
module Strings {

  predicate IsUpper(c: char) { 'A' <= c <= 'Z' }

  predicate IsLower(c: char) { 'a' <= c <= 'z' }

  predicate IsLetter(c: char) { IsUpper(c) || IsLower(c) }

  function Lower(c: char): char
  {
    if IsUpper(c) then (c as int + 32) as char else c
  }

  function Upper(c: char): char
  {
    if IsLower(c) then (c as int - 32) as char else c
  }

  /** `strings.ToLower`: every character mapped to its lower-case form, nothing moved. */
  function ToLower(s: string): (r: string)
    ensures |r| == |s|
    ensures forall i :: 0 <= i < |s| ==> r[i] == Lower(s[i])
  {
    if s == [] then [] else [Lower(s[0])] + ToLower(s[1..])
  }

  /** `strings.ReplaceAll(s, string(from), string(to))`: a character-for-character substitution. */
  function ReplaceChar(s: string, from: char, to: char): (r: string)
    ensures |r| == |s|
    ensures forall i :: 0 <= i < |s| ==> r[i] == if s[i] == from then to else s[i]
    ensures from !in s ==> r == s
  {
    if s == [] then [] else [if s[0] == from then to else s[0]] + ReplaceChar(s[1..], from, to)
  }

  /** `strings.ReplaceAll(s, string(c), "")`: every occurrence of `c` dropped, the rest kept in order. */
  function RemoveChar(s: string, c: char): (r: string)
    ensures c !in r
    ensures c !in s ==> r == s
    ensures s != [] && s[0] != c ==> r != [] && r[0] == s[0]
  {
    if s == [] then []
    else if s[0] == c then RemoveChar(s[1..], c)
    else [s[0]] + RemoveChar(s[1..], c)
  }

  /** Dropping `c` in front of `t` depends only on whether the first character is `c`. */
  lemma RemoveCharCons(x: char, t: string, c: char)
    ensures RemoveChar([x] + t, c) == if x == c then RemoveChar(t, c) else [x] + RemoveChar(t, c)
  {
    assert ([x] + t)[0] == x && ([x] + t)[1..] == t;
  }

  /** Dropping `c` removes exactly its occurrences: every other character keeps its count. */
  lemma {:induction false} RemoveCharCount(s: string, c: char)
    ensures multiset(RemoveChar(s, c)) == multiset(s)[c := 0]
    ensures |RemoveChar(s, c)| == |s| - multiset(s)[c]
  {
    if s != [] {
      RemoveCharCount(s[1..], c);
      assert s == [s[0]] + s[1..];
      RemoveCharCons(s[0], s[1..], c);
      assert |multiset(RemoveChar(s, c))| == |RemoveChar(s, c)|;
    }
  }

  /** Dropping a character distributes over concatenation. */
  lemma {:induction false} RemoveCharConcat(a: string, b: string, c: char)
    ensures RemoveChar(a + b, c) == RemoveChar(a, c) + RemoveChar(b, c)
  {
    if a == [] {
      assert a + b == b;
    } else {
      var x, rest := a[0], a[1..];
      var tail := RemoveChar(rest, c) + RemoveChar(b, c);
      assert RemoveChar(rest + b, c) == tail by {
        RemoveCharConcat(rest, b, c);
      }
      assert RemoveChar(a + b, c) == if x == c then tail else [x] + tail by {
        assert a + b == [x] + (rest + b);
        RemoveCharCons(x, rest + b, c);
      }
      assert RemoveChar(a, c) == if x == c then RemoveChar(rest, c) else [x] + RemoveChar(rest, c) by {
        assert a == [x] + rest;
        RemoveCharCons(x, rest, c);
      }
    }
  }

  /** Dropping the separator between two words that do not contain it joins them. */
  lemma RemoveCharJoinsWords(a: string, b: string, c: char)
    requires c !in a && c !in b
    ensures RemoveChar(a + [c] + b, c) == a + b
  {
    RemoveCharConcat(a + [c], b, c);
    RemoveCharConcat(a, [c], c);
  }

  /** Lower-casing distributes over concatenation. */
  lemma ToLowerConcat(a: string, b: string)
    ensures ToLower(a + b) == ToLower(a) + ToLower(b)
  {
    var s, r, la, lb := a + b, ToLower(a + b), ToLower(a), ToLower(b);
    var t := la + lb;
    forall i | 0 <= i < |s| ensures r[i] == t[i] {
      if i < |a| {
        assert s[i] == a[i] && t[i] == la[i];
      } else {
        assert s[i] == b[i - |a|] && t[i] == lb[i - |a|];
      }
    }
    assert |r| == |t|;
  }

  /** Replacing the one separator between two words that do not contain it. */
  lemma ReplaceCharJoinsWords(a: string, b: string, from: char, to: char)
    requires from !in a && from !in b
    ensures ReplaceChar(a + [from] + b, from, to) == a + [to] + b
  {
    var s := a + [from] + b;
    assert forall i :: 0 <= i < |s| ==> (s[i] == from <==> i == |a|);
  }

  /** True when position `i` of `s` begins a space-separated word; `atStart` says whether
      position 0 does. */
  predicate WordStart(s: string, i: nat, atStart: bool)
    requires i < |s|
  {
    if i == 0 then atStart else s[i - 1] == ' '
  }

  /** Title casing of `s`, where the first character is a word start exactly when `atStart`. */
  function TitleFrom(s: string, atStart: bool): (r: string)
    ensures |r| == |s|
  {
    if s == [] then []
    else
      [if atStart then Upper(s[0]) else Lower(s[0])] + TitleFrom(s[1..], s[0] == ' ')
  }

  /** Each character is upper-cased exactly where a word starts, and lower-cased elsewhere. */
  lemma {:induction false} TitleFromAt(s: string, atStart: bool)
    ensures forall i :: 0 <= i < |s| ==>
      TitleFrom(s, atStart)[i] == if WordStart(s, i, atStart) then Upper(s[i]) else Lower(s[i])
  {
    if s != [] {
      var r, t := TitleFrom(s, atStart), TitleFrom(s[1..], s[0] == ' ');
      TitleFromAt(s[1..], s[0] == ' ');
      forall i | 0 < i < |s|
        ensures r[i] == if WordStart(s, i, atStart) then Upper(s[i]) else Lower(s[i])
      {
        assert r[i] == t[i - 1] && s[1..][i - 1] == s[i];
        if i > 1 {
          assert s[1..][i - 2] == s[i - 1];
        }
      }
    }
  }

  /** `cases.Title(language.English).String(s)` for ASCII text whose words are separated by
      spaces: the first letter of each word upper-cased, every other letter lower-cased.  The
      last `ensures` says it all; the three before it are its cases, spelled out for callers. */
  function TitleCase(s: string): (r: string)
    ensures |r| == |s|
    ensures forall i :: 0 <= i < |s| ==> (r[i] == ' ' <==> s[i] == ' ')
    ensures s != [] ==> r[0] == Upper(s[0])
    ensures forall i :: 0 < i < |s| && s[i - 1] == ' ' ==> r[i] == Upper(s[i])
    ensures forall i :: 0 < i < |s| && s[i - 1] != ' ' ==> r[i] == Lower(s[i])
    ensures forall i :: 0 <= i < |s| ==> r[i] == if WordStart(s, i, true) then Upper(s[i]) else Lower(s[i])
  {
    TitleFromAt(s, true);
    TitleFrom(s, true)
  }

  /** A title of two words separated by a space is title-cased word by word. */
  lemma TitleCaseTwoWords(a: string, b: string)
    requires ' ' !in a
    ensures TitleCase(a + [' '] + b) == TitleCase(a) + [' '] + TitleCase(b)
  {
    var s, n := a + [' '] + b, |a|;
    var r, ta, tb := TitleCase(s), TitleCase(a), TitleCase(b);
    forall i | 0 <= i < |s| ensures r[i] == (ta + [' '] + tb)[i] {
      if i < n {
        assert s[i] == a[i];
        if i > 0 { assert s[i - 1] == a[i - 1]; }
      } else if i == n {
        assert r[i] == ' ';
      } else {
        var j := i - n - 1;
        assert s[i] == b[j];
        if j > 0 { assert s[i - 1] == b[j - 1]; } else { assert s[i - 1] == ' '; }
      }
    }
  }

  /** The first character upper-cased, the rest untouched. */
  function Capitalise(s: string): string
  {
    if s == [] then [] else [Upper(s[0])] + s[1..]
  }

  lemma LowerIdempotent(c: char)
    ensures Lower(Lower(c)) == Lower(c) && Upper(Upper(c)) == Upper(c)
    ensures Lower(Upper(c)) == Lower(c) && Upper(Lower(c)) == Upper(c)
    ensures (Lower(c) == ' ' <==> c == ' ') && (Upper(c) == ' ' <==> c == ' ')
  {
  }

  /** Lower-casing twice is lower-casing once. */
  lemma ToLowerIdempotent(s: string)
    ensures ToLower(ToLower(s)) == ToLower(s)
  {
    var t := ToLower(s);
    forall i | 0 <= i < |s| ensures ToLower(t)[i] == t[i] {
      LowerIdempotent(s[i]);
    }
  }

  /** Title casing is idempotent: a title-cased string is its own title case. */
  lemma TitleCaseIdempotent(s: string)
    ensures TitleCase(TitleCase(s)) == TitleCase(s)
  {
    var t := TitleCase(s);
    forall i | 0 <= i < |s| ensures TitleCase(t)[i] == t[i] {
      LowerIdempotent(s[i]);
      if i > 0 {
        LowerIdempotent(s[i - 1]);
      }
    }
  }
}
