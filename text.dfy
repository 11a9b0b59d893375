/** The two Python string operations the request parser relies on:
    `str.split(sep)` with an explicit separator and `str.replace(old, new)`,
    together with `sep.join(parts)`, which serves as their common reference. */
module Text {

  /** True when `s` begins with `p`. */
  predicate StartsWith(s: string, p: string)
  {
    |p| <= |s| && s[..|p|] == p
  }

  /** `s.split(sep)`: cut `s` at every occurrence of `sep`, scanning left to
      right; occurrences do not overlap. There is always at least one field;
      the empty string gives `[""]`. Python raises on an empty separator. */
  function Split(s: string, sep: string): (parts: seq<string>)
    requires |sep| > 0
    ensures |parts| >= 1
    ensures |sep| == 1 ==> forall i :: 0 <= i < |parts| ==> sep[0] !in parts[i]
    ensures |sep| == 1 ==> |parts| == multiset(s)[sep[0]] + 1
    decreases |s|
  {
    if StartsWith(s, sep) then
      assert |sep| == 1 ==> s == sep + s[1..];
      [""] + Split(s[|sep|..], sep)
    else if s == [] then
      [""]
    else
      var rest := Split(s[1..], sep);
      assert s == [s[0]] + s[1..];
      [[s[0]] + rest[0]] + rest[1..]
  }

  /** `sep.join(parts)` for a non-empty list: the fields with `sep` between
      consecutive ones. */
  function Join(parts: seq<string>, sep: string): (s: string)
    requires |parts| >= 1
  {
    if |parts| == 1 then parts[0] else parts[0] + sep + Join(parts[1..], sep)
  }

  /** `s.replace(pat, val)`: every occurrence of `pat`, found left to right
      without overlap, replaced by `val`. An empty `pat` matches before every
      character and at the end, as in Python. */
  function ReplaceAll(s: string, pat: string, val: string): (r: string)
    ensures pat == val ==> r == s
    ensures |pat| > 0 && pat[0] !in s ==> r == s
    decreases |s|
  {
    if pat == [] then
      if s == [] then val else val + [s[0]] + ReplaceAll(s[1..], pat, val)
    else if StartsWith(s, pat) then
      val + ReplaceAll(s[|pat|..], pat, val)
    else if s == [] then
      []
    else
      [s[0]] + ReplaceAll(s[1..], pat, val)
  }

  /** A text that is exactly the pattern becomes the replacement. */
  lemma ReplaceWhole(pat: string, val: string)
    requires |pat| > 0
    ensures ReplaceAll(pat, pat, val) == val
  {
    assert pat[|pat|..] == [];
  }

  /** Prepending one character to the first field. */
  lemma JoinConsFirst(c: char, parts: seq<string>, sep: string)
    requires |parts| >= 1
    ensures Join([[c] + parts[0]] + parts[1..], sep) == [c] + Join(parts, sep)
  {
    var q := [[c] + parts[0]] + parts[1..];
    if |parts| > 1 {
      assert q[1..] == parts[1..];
    }
  }

  /** Python's identity `s.replace(pat, val) == val.join(s.split(pat))`. */
  lemma {:induction false} ReplaceAllIsJoinOfSplit(s: string, pat: string, val: string)
    requires |pat| > 0
    ensures ReplaceAll(s, pat, val) == Join(Split(s, pat), val)
    decreases |s|
  {
    if StartsWith(s, pat) {
      ReplaceAllIsJoinOfSplit(s[|pat|..], pat, val);
      JoinAfterMatch(s, pat, val);
    } else if s != [] {
      ReplaceAllIsJoinOfSplit(s[1..], pat, val);
      JoinAfterChar(s, pat, val);
    }
  }

  /** One step of the identity above when `s` begins with `pat`. */
  lemma JoinAfterMatch(s: string, pat: string, val: string)
    requires |pat| > 0 && StartsWith(s, pat)
    ensures Join(Split(s, pat), val) == val + Join(Split(s[|pat|..], pat), val)
  {
    var rest := Split(s[|pat|..], pat);
    assert Split(s, pat) == [""] + rest;
    assert ([""] + rest)[1..] == rest;
  }

  /** One step of the identity above when `s` does not begin with `pat`. */
  lemma JoinAfterChar(s: string, pat: string, val: string)
    requires |pat| > 0 && !StartsWith(s, pat) && s != []
    ensures Join(Split(s, pat), val) == [s[0]] + Join(Split(s[1..], pat), val)
  {
    var rest := Split(s[1..], pat);
    assert Split(s, pat) == [[s[0]] + rest[0]] + rest[1..];
    JoinConsFirst(s[0], rest, val);
  }

  /** `t` holds no occurrence of `sep`, at any position. */
  predicate Avoids(t: string, sep: string)
  {
    forall j :: 0 <= j <= |t| ==> !StartsWith(t[j..], sep)
  }

  /** The first field is a prefix of the text. */
  lemma FirstFieldIsPrefix(s: string, sep: string)
    requires |sep| > 0
    ensures var first := Split(s, sep)[0]; |first| <= |s| && s[..|first|] == first
  {
    var parts := Split(s, sep);
    SplitJoinRoundTrip(s, sep);
    if |parts| > 1 {
      assert s == parts[0] + (sep + Join(parts[1..], sep));
    }
  }

  /** A text that begins with `f` begins with everything `f` begins with. */
  lemma PrefixStartsWith(s: string, f: string, sep: string)
    ensures |f| <= |s| && s[..|f|] == f && StartsWith(f, sep) ==> StartsWith(s, sep)
  {
    if |f| <= |s| && s[..|f|] == f && StartsWith(f, sep) {
      assert s[..|sep|] == f[..|sep|];
    }
  }

  /** No field of `s.split(sep)` contains `sep`, whatever its length: the
      scan cuts at every occurrence. */
  lemma {:induction false} SplitFieldsAvoidSeparator(s: string, sep: string)
    requires |sep| > 0
    ensures forall i :: 0 <= i < |Split(s, sep)| ==> Avoids(Split(s, sep)[i], sep)
    decreases |s|
  {
    var parts := Split(s, sep);
    assert Avoids("", sep) by { assert ""[0..] == ""; }
    if StartsWith(s, sep) {
      SplitFieldsAvoidSeparator(s[|sep|..], sep);
      assert parts == [""] + Split(s[|sep|..], sep);
    } else if s != [] {
      var rest := Split(s[1..], sep);
      SplitFieldsAvoidSeparator(s[1..], sep);
      FirstFieldIsPrefix(s[1..], sep);
      var first := [s[0]] + rest[0];
      assert parts == [first] + rest[1..];
      assert s[..|first|] == first;
      forall j | 0 <= j <= |first|
        ensures !StartsWith(first[j..], sep)
      {
        if j == 0 {
          PrefixStartsWith(s, first, sep);
          assert first[0..] == first;
        } else {
          assert first[j..] == rest[0][j - 1..];
        }
      }
    }
  }

  /** A first field that a separator follows is a prefix of the text together
      with that separator. */
  lemma FirstFieldAndSeparator(s: string, sep: string)
    requires |sep| > 0 && |Split(s, sep)| > 1
    ensures var first := Split(s, sep)[0];
            |first| + |sep| <= |s| && s[..|first| + |sep|] == first + sep
  {
    var parts := Split(s, sep);
    SplitJoinRoundTrip(s, sep);
    assert s == (parts[0] + sep) + Join(parts[1..], sep);
  }

  /** No occurrence of `sep` starts inside a field that a separator follows. */
  predicate CutsLeftmost(parts: seq<string>, sep: string)
  {
    forall i, j :: 0 <= i < |parts| - 1 && 0 <= j < |parts[i]| ==>
      !StartsWith(parts[i][j..] + sep, sep)
  }

  /** `s.split(sep)` cuts at the leftmost occurrence: no occurrence of `sep`
      starts inside a field that a separator follows, not even one that
      runs on into that separator. */
  lemma {:induction false} SplitCutsLeftmost(s: string, sep: string)
    requires |sep| > 0
    ensures CutsLeftmost(Split(s, sep), sep)
    decreases |s|
  {
    var parts := Split(s, sep);
    if StartsWith(s, sep) {
      SplitCutsLeftmost(s[|sep|..], sep);
      assert parts == [""] + Split(s[|sep|..], sep);
    } else if s != [] {
      var rest := Split(s[1..], sep);
      SplitCutsLeftmost(s[1..], sep);
      var first := [s[0]] + rest[0];
      assert parts == [first] + rest[1..];
      if |parts| > 1 {
        FirstFieldAndSeparator(s, sep);
        forall j | 0 <= j < |first|
          ensures !StartsWith(first[j..] + sep, sep)
        {
          if j == 0 {
            PrefixStartsWith(s, first + sep, sep);
            assert first[0..] == first;
          } else {
            assert first[j..] == rest[0][j - 1..];
            assert 0 <= j - 1 < |rest[0]|;
            assert !StartsWith(rest[0][j - 1..] + sep, sep);
          }
        }
        forall i, j | 1 <= i < |parts| - 1 && 0 <= j < |parts[i]|
          ensures !StartsWith(parts[i][j..] + sep, sep)
        {
          assert parts[i] == rest[i];
          assert !StartsWith(rest[i][j..] + sep, sep);
        }
      }
    }
  }

  /** Splitting and joining back with the same separator gives the input. */
  lemma {:induction false} SplitJoinRoundTrip(s: string, sep: string)
    requires |sep| > 0
    ensures Join(Split(s, sep), sep) == s
  {
    ReplaceAllIsJoinOfSplit(s, sep, sep);
  }

  /** A text without the one-character separator is a single field. */
  lemma {:induction false} SplitWithout(a: string, c: char)
    requires c !in a
    ensures Split(a, [c]) == [a]
    decreases |a|
  {
    if a != [] {
      assert !StartsWith(a, [c]) by { assert a[..1] == [a[0]]; }
      SplitWithout(a[1..], c);
      assert [a[0]] + a[1..] == a;
    }
  }

  /** The first field is the text before the first separator. */
  lemma {:induction false} SplitAtFirst(a: string, c: char, rest: string)
    requires c !in a
    requires |rest| > 0 && rest[0] == c
    ensures Split(a + rest, [c]) == [a] + Split(rest[1..], [c])
    decreases |a|
  {
    var s := a + rest;
    if a == [] {
      assert s == rest;
      assert s[..1] == [c];
    } else {
      assert !StartsWith(s, [c]) by { assert s[..1] == [a[0]]; }
      assert s[1..] == a[1..] + rest;
      SplitAtFirst(a[1..], c, rest);
      assert [a[0]] + a[1..] == a;
    }
  }

  /** The first field ends where the separator or the text does. */
  lemma SplitFirstField(a: string, c: char, rest: string)
    requires c !in a
    requires rest == [] || rest[0] == c
    ensures Split(a + rest, [c])[0] == a
  {
    if rest == [] {
      SplitWithout(a, c);
      assert a + rest == a;
    } else {
      SplitAtFirst(a, c, rest);
    }
  }

  /** The first three fields of a text with at least two separators. */
  lemma SplitThreeFields(a: string, b: string, f: string, rest: string, c: char)
    requires c !in a && c !in b && c !in f
    requires rest == [] || rest[0] == c
    ensures var parts := Split(a + ([c] + (b + ([c] + (f + rest)))), [c]);
            |parts| >= 3 && parts[0] == a && parts[1] == b && parts[2] == f
  {
    var u := [c] + (f + rest);
    var t := [c] + (b + u);
    SplitAtFirst(a, c, t);
    assert t[1..] == b + u;
    SplitAtFirst(b, c, u);
    assert u[1..] == f + rest;
    SplitFirstField(f, c, rest);
  }

  /** A prefix as long as the whole text ends with the text's last character. */
  lemma FullPrefixLast(t: string, pat: string)
    ensures StartsWith(t, pat) && |pat| == |t| > 0 ==> pat[|pat| - 1] == t[|t| - 1]
  {
    if StartsWith(t, pat) && |pat| == |t| > 0 {
      assert t[..|pat|][|pat| - 1] == t[|t| - 1];
    }
  }

  /** Appending a character that `pat` does not end with commutes with
      replacement: an occurrence of `pat` that reached it would end on it. */
  lemma {:induction false} ReplaceAllAppend(s: string, c: char, pat: string, val: string)
    requires |pat| > 0 && pat[|pat| - 1] != c
    ensures ReplaceAll(s + [c], pat, val) == ReplaceAll(s, pat, val) + [c]
    decreases |s|
  {
    var t := s + [c];
    if StartsWith(t, pat) {
      FullPrefixLast(t, pat);
      assert s[..|pat|] == t[..|pat|];
      assert t[|pat|..] == s[|pat|..] + [c];
      ReplaceAllAppend(s[|pat|..], c, pat, val);
    } else if s == [] {
      assert !StartsWith([c], pat);
      assert pat != [c];
      assert ReplaceAll(t, pat, val) == [c] + ReplaceAll([], pat, val);
    } else {
      assert t[1..] == s[1..] + [c];
      ReplaceAllAppend(s[1..], c, pat, val);
    }
  }
}
