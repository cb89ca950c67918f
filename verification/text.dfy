/**
 String helpers shared by the two parsers: ASCII lower-casing, removal of
 spaces, the separator split and trims of the Rust standard library as the
 parsers use them, and the join that undoes a split.
 */
module Text {

  /** Lower-cases one ASCII letter and leaves every other character alone. */
  function LowerChar(c: char): (r: char)
    ensures !('A' <= r <= 'Z')
    ensures 'A' <= c <= 'Z' ==> r as int == c as int + 32
    ensures !('A' <= c <= 'Z') ==> r == c
  {
    if 'A' <= c <= 'Z' then (c as int + 32) as char else c
  }

  /** The lower-casing step, restricted to ASCII. */
  function Lower(s: string): (r: string)
    ensures |r| == |s|
    ensures forall i :: 0 <= i < |r| ==> !('A' <= r[i] <= 'Z')
    ensures forall i :: 0 <= i < |s| && 'A' <= s[i] <= 'Z' ==> r[i] as int == s[i] as int + 32
    ensures forall i :: 0 <= i < |s| && !('A' <= s[i] <= 'Z') ==> r[i] == s[i]
  {
    seq(|s|, i requires 0 <= i < |s| => LowerChar(s[i]))
  }

  /** `s` with every space character deleted, other characters kept in order. */
  function RemoveSpaces(s: string): (r: string)
    ensures ' ' !in r
    ensures |r| <= |s|
    ensures multiset(r) == multiset(s)[' ' := 0]
  {
    if s == [] then []
    else
      assert s == [s[0]] + s[1..];
      (if s[0] == ' ' then [] else [s[0]]) + RemoveSpaces(s[1..])
  }

  /** On one character the removal keeps it exactly when it is not a space. */
  lemma RemoveSpacesChar(c: char)
    ensures RemoveSpaces([c]) == if c == ' ' then [] else [c]
  {
  }

  /** The removal works piecewise, so the kept characters stay in their order. */
  lemma {:induction false} RemoveSpacesAppend(a: string, b: string)
    ensures RemoveSpaces(a + b) == RemoveSpaces(a) + RemoveSpaces(b)
    decreases |a|
  {
    if a == [] {
      assert a + b == b;
    } else {
      var c, rest := a[0], a[1..];
      assert a == [c] + rest;
      assert a + b == [c] + (rest + b);
      RemoveSpacesCons(c, rest + b);
      RemoveSpacesCons(c, rest);
      RemoveSpacesAppend(rest, b);
      AppendAssoc(if c == ' ' then [] else [c], RemoveSpaces(rest), RemoveSpaces(b));
    }
  }

  lemma AppendAssoc(x: string, y: string, z: string)
    ensures x + (y + z) == (x + y) + z
  {
  }

  /** Removal from a text that starts with `c` handles `c` first. */
  lemma RemoveSpacesCons(c: char, s: string)
    ensures RemoveSpaces([c] + s) == (if c == ' ' then [] else [c]) + RemoveSpaces(s)
  {
    assert ([c] + s)[0] == c && ([c] + s)[1..] == s;
  }

  /** The text both parsers work on: lower-cased, then stripped of spaces. */
  function Normalize(text: string): (r: string)
    ensures ' ' !in r
  {
    RemoveSpaces(Lower(text))
  }

  /** `sep` occurs in `s` at position `i`. */
  predicate OccursAt(s: string, sep: string, i: int)
  {
    0 <= i && i + |sep| <= |s| && s[i..i + |sep|] == sep
  }

  /** `sep` occurs somewhere in `s`. */
  predicate Contains(s: string, sep: string)
  {
    exists i | 0 <= i <= |s| :: OccursAt(s, sep, i)
  }

  /** The leftmost position at or after `from` where `sep` occurs, or `|s|` if none. */
  function FindFrom(s: string, sep: string, from: nat): (k: nat)
    requires |sep| > 0 && from <= |s|
    ensures from <= k <= |s|
    ensures k < |s| ==> OccursAt(s, sep, k)
    decreases |s| - from
  {
    if from == |s| then |s|
    else if OccursAt(s, sep, from) then from
    else FindFrom(s, sep, from + 1)
  }

  /** The position found is the leftmost one: `sep` occurs nowhere between `from` and it. */
  lemma {:induction false} FindFromIsLeftmost(s: string, sep: string, from: nat)
    requires |sep| > 0 && from <= |s|
    ensures forall j :: from <= j < FindFrom(s, sep, from) ==> !OccursAt(s, sep, j)
    decreases |s| - from
  {
    if from < |s| && !OccursAt(s, sep, from) {
      FindFromIsLeftmost(s, sep, from + 1);
    }
  }

  /**
   Splits `s` at every occurrence of `sep`, taking occurrences leftmost first
   and without overlap, as Rust's `str::split` does with a string pattern.
   */
  function Split(s: string, sep: string): (parts: seq<string>)
    requires |sep| > 0
    ensures |parts| >= 1
    decreases |s|
  {
    var k := FindFrom(s, sep, 0);
    if k == |s| then [s] else [s[..k]] + Split(s[k + |sep|..], sep)
  }

  /**
   The first part ends at the leftmost occurrence of `sep`, and a text that
   does not contain `sep` is not split at all.
   */
  lemma SplitIsLeftmost(s: string, sep: string)
    requires |sep| > 0
    ensures |Split(s, sep)| > 1 ==> OccursAt(s, sep, |Split(s, sep)[0]|)
    ensures forall j :: 0 <= j < |Split(s, sep)[0]| ==> !OccursAt(s, sep, j)
    ensures |Split(s, sep)| == 1 <==> !Contains(s, sep)
  {
    var k := FindFrom(s, sep, 0);
    FindFromIsLeftmost(s, sep, 0);
    if k < |s| {
      assert |Split(s, sep)| > 1;
      assert Split(s, sep)[0] == s[..k];
      assert Contains(s, sep);
    }
  }

  /** No part of a split contains the separator. */
  lemma {:induction false} SplitPartsAreFree(s: string, sep: string)
    requires |sep| > 0
    ensures forall p :: p in Split(s, sep) ==> !Contains(p, sep)
    decreases |s|
  {
    var k := FindFrom(s, sep, 0);
    FindFromIsLeftmost(s, sep, 0);
    NoOccurrenceBefore(s, sep, k);
    if k < |s| {
      SplitPartsAreFree(s[k + |sep|..], sep);
    }
  }

  /** No occurrence of `sep` lies wholly inside `s[..k]` when none starts before `k`. */
  lemma NoOccurrenceBefore(s: string, sep: string, k: nat)
    requires |sep| > 0 && k <= |s|
    requires forall j :: 0 <= j < k ==> !OccursAt(s, sep, j)
    ensures !Contains(s[..k], sep)
  {
    if Contains(s[..k], sep) {
      var i :| 0 <= i <= k && OccursAt(s[..k], sep, i);
      assert i + |sep| <= k;
      assert s[..k][i..i + |sep|] == s[i..i + |sep|];
      assert OccursAt(s, sep, i);
    }
  }

  /** A text without the separator's first character splits into itself alone. */
  lemma SplitWithoutSeparator(s: string, sep: string)
    requires |sep| > 0 && sep[0] !in s
    ensures Split(s, sep) == [s]
  {
  }

  /** Concatenates `parts` with `sep` between neighbours. */
  function Join(parts: seq<string>, sep: string): (r: string)
    requires |parts| >= 1
  {
    if |parts| == 1 then parts[0] else parts[0] + sep + Join(parts[1..], sep)
  }

  /** Splitting loses nothing: joining the parts again restores the text. */
  lemma {:induction false} SplitJoin(s: string, sep: string)
    requires |sep| > 0
    ensures Join(Split(s, sep), sep) == s
    decreases |s|
  {
    var k := FindFrom(s, sep, 0);
    if k < |s| {
      var rest := s[k + |sep|..];
      SplitJoin(rest, sep);
      SplitStep(s, sep, k);
      JoinFirst(s[..k], Split(rest, sep), sep);
      SplitAround(s, sep, k);
    }
  }

  /** One step of the split: the text before the first occurrence, then the split of the rest. */
  lemma SplitStep(s: string, sep: string, k: nat)
    requires |sep| > 0 && k == FindFrom(s, sep, 0) && k < |s|
    ensures Split(s, sep) == [s[..k]] + Split(s[k + |sep|..], sep)
  {
  }

  /** A text is its part before an occurrence of `sep`, `sep` itself, and its part after. */
  lemma SplitAround(s: string, sep: string, k: nat)
    requires OccursAt(s, sep, k)
    ensures s == s[..k] + sep + s[k + |sep|..]
  {
    assert s == s[..k] + s[k..k + |sep|] + s[k + |sep|..];
  }

  lemma JoinFirst(first: string, parts: seq<string>, sep: string)
    requires |parts| >= 1
    ensures Join([first] + parts, sep) == first + sep + Join(parts, sep)
  {
    assert ([first] + parts)[1..] == parts;
  }

  /** `s` without its leading run of `c`. */
  function TrimStart(s: string, c: char): (r: string)
    ensures |r| <= |s| && r == s[|s| - |r|..]
    ensures forall i :: 0 <= i < |s| - |r| ==> s[i] == c
    ensures r == [] || r[0] != c
    decreases |s|
  {
    if |s| > 0 && s[0] == c then TrimStart(s[1..], c) else s
  }

  /** `s` without its trailing run of `c`. */
  function TrimEnd(s: string, c: char): (r: string)
    ensures |r| <= |s| && r == s[..|r|]
    ensures forall i :: |r| <= i < |s| ==> s[i] == c
    ensures r == [] || r[|r| - 1] != c
    decreases |s|
  {
    if |s| > 0 && s[|s| - 1] == c then TrimEnd(s[..|s| - 1], c) else s
  }

  /** The `&&`-separated pieces of the normalised text, one per clause. */
  function Segments(text: string): (segments: seq<string>)
    ensures |segments| >= 1
  {
    Split(Normalize(text), "&&")
  }

  /** A segment without its leading `(` and trailing `)` characters. */
  function Unwrap(segment: string): (r: string)
  {
    TrimEnd(TrimStart(segment, '('), ')')
  }

  /** The `||`-separated tokens of one segment, after unwrapping. */
  function Tokens(segment: string): (tokens: seq<string>)
    ensures |tokens| >= 1
  {
    Split(Unwrap(segment), "||")
  }
}
