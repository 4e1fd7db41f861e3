/** The handful of Python `str` operations the cleanser relies on (`in`,
    `replace`, `strip`, `split`, `' '.join`, `lower`, `capitalize`,
    `isupper` and `split(sep)[0]`), restricted to ASCII semantics. */
module PyStr {

  datatype Option<T> = None | Some(value: T)

  // ---------------------------------------------------------------------
  // Characters

  /** The ASCII characters Python's `str.split()` and `str.strip()` treat as
      whitespace: space, \t \n \v \f \r and the separators \x1c..\x1f. */
  predicate IsSpace(c: char) {
    c == ' ' || ('\t' <= c <= '\r') || ('\U{1C}' <= c <= '\U{1F}')
  }

  predicate IsUpperChar(c: char) { 'A' <= c <= 'Z' }
  predicate IsLowerChar(c: char) { 'a' <= c <= 'z' }

  function LowerChar(c: char): (r: char)
    ensures !IsUpperChar(r)
    ensures IsSpace(r) <==> IsSpace(c)
    ensures !IsUpperChar(c) ==> r == c
  {
    if IsUpperChar(c) then (c as int + 32) as char else c
  }

  function UpperChar(c: char): (r: char)
    ensures !IsLowerChar(r)
    ensures IsSpace(r) <==> IsSpace(c)
    ensures !IsLowerChar(c) ==> r == c
  {
    if IsLowerChar(c) then (c as int - 32) as char else c
  }

  // ---------------------------------------------------------------------
  // Case mapping

  /** `s.lower()` */
  function Lower(s: string): (r: string)
    ensures |r| == |s|
    ensures forall i :: 0 <= i < |s| ==> r[i] == LowerChar(s[i])
  {
    seq(|s|, i requires 0 <= i < |s| => LowerChar(s[i]))
  }

  /** `s.capitalize()`: first character upper case, the rest lower case. */
  function Capitalize(s: string): (r: string)
    ensures |r| == |s|
  {
    if s == [] then [] else [UpperChar(s[0])] + Lower(s[1..])
  }

  /** `s.isupper()`: at least one cased character and no lower-case one. */
  predicate IsUpper(s: string) {
    (exists i :: 0 <= i < |s| && IsUpperChar(s[i])) &&
    (forall i :: 0 <= i < |s| ==> !IsLowerChar(s[i]))
  }

  lemma LowerIdempotent(s: string)
    ensures Lower(Lower(s)) == Lower(s)
  {
  }

  lemma LowerOfCapitalize(s: string)
    ensures Lower(Capitalize(s)) == Lower(s)
  {
    if s != [] {
      var c := Capitalize(s);
      forall i | 0 <= i < |s|
        ensures Lower(c)[i] == Lower(s)[i]
      {
        if i > 0 { assert c[i] == Lower(s[1..])[i - 1]; }
      }
    }
  }

  lemma CapitalizeIdempotent(s: string)
    ensures Capitalize(Capitalize(s)) == Capitalize(s)
  {
    if s != [] {
      var c := Capitalize(s);
      assert c[1..] == Lower(s[1..]);
    }
  }

  lemma CaseMappingKeepsWords(w: string)
    requires IsWord(w)
    ensures IsWord(Lower(w)) && IsWord(Capitalize(w))
  {
    var c := Capitalize(w);
    forall i | 0 <= i < |w| ensures !IsSpace(c[i]) {
      if i > 0 { assert c[i] == Lower(w[1..])[i - 1]; }
    }
  }

  /** A character that is not a letter survives lower-casing only where it
      already was. */
  lemma LowerChars(s: string, c: char)
    requires !IsUpperChar(c) && !IsLowerChar(c)
    ensures c in Lower(s) ==> c in s
  {
    if c in Lower(s) {
      var i :| 0 <= i < |s| && Lower(s)[i] == c;
      assert s[i] == c;
    }
  }

  /** A character that is not a letter survives case mapping only where it
      already was. */
  lemma CapitalizeChars(s: string, c: char)
    requires !IsUpperChar(c) && !IsLowerChar(c)
    ensures c in Capitalize(s) ==> c in s
    ensures c in Lower(s) ==> c in s
  {
    LowerChars(s, c);
    if s != [] && c in Capitalize(s) {
      var i :| 0 <= i < |s| && Capitalize(s)[i] == c;
      if i == 0 {
        assert s[0] == c;
      } else {
        assert Lower(s[1..])[i - 1] == c;
        LowerChars(s[1..], c);
        assert c in s[1..];
      }
    }
  }

  // ---------------------------------------------------------------------
  // Substrings: `p in s`, leftmost search and `s.split(p)[0]`

  predicate Occurs(s: string, p: string, i: nat) {
    i + |p| <= |s| && s[i..i + |p|] == p
  }

  /** Python's `p in s`. */
  predicate Contains(s: string, p: string) {
    exists i :: 0 <= i <= |s| && Occurs(s, p, i)
  }

  /** The leftmost occurrence of `p` in `s` at or after `from`. */
  function FindFrom(s: string, p: string, from: nat): (r: Option<nat>)
    requires from <= |s|
    ensures r.Some? ==> from <= r.value <= |s| && Occurs(s, p, r.value)
    ensures r.Some? ==> forall j :: from <= j < r.value ==> !Occurs(s, p, j)
    ensures r.None? ==> forall j :: from <= j ==> !Occurs(s, p, j)
    decreases |s| - from
  {
    if Occurs(s, p, from) then Some(from)
    else if from == |s| then None
    else FindFrom(s, p, from + 1)
  }

  lemma ContainsFind(s: string, p: string)
    ensures Contains(s, p) <==> FindFrom(s, p, 0).Some?
  {
  }

  /** An occurrence inside the slice `s[m..e]` is an occurrence in `s`. */
  lemma OccursInSlice(s: string, m: nat, e: nat, p: string, i: nat)
    requires m <= e <= |s|
    requires Occurs(s[m..e], p, i)
    ensures Occurs(s, p, m + i)
  {
    forall k | 0 <= k < |p|
      ensures s[m + i..m + i + |p|][k] == p[k]
    {
      assert s[m..e][i..i + |p|][k] == p[k];
    }
  }

  /** `p` cannot occur where one of its characters is missing. */
  lemma MissingChar(s: string, p: string, c: char)
    requires c in p && c !in s
    ensures !Contains(s, p)
  {
  }

  /** Cutting at an occurrence that starts the first copy of `p[0]`. */
  lemma BeforeFirstChar(s: string, p: string, i: nat)
    requires |p| > 0 && Occurs(s, p, i) && p[0] !in s[..i]
    ensures Before(s, p) == s[..i]
  {
  }

  /** `s.split(p)[0]`: everything before the first occurrence of `p`. */
  function Before(s: string, p: string): string
    requires |p| > 0
  {
    match FindFrom(s, p, 0)
    case None => s
    case Some(i) => s[..i]
  }

  lemma BeforeSpec(s: string, p: string)
    requires |p| > 0
    ensures Before(s, p) <= s
    ensures !Contains(Before(s, p), p)
    ensures !Contains(s, p) ==> Before(s, p) == s
    ensures Contains(s, p) ==>
      Occurs(s, p, |Before(s, p)|) && forall j :: 0 <= j < |Before(s, p)| ==> !Occurs(s, p, j)
  {
    ContainsFind(s, p);
    var r := Before(s, p);
    if Contains(r, p) {
      var j :| 0 <= j <= |r| && Occurs(r, p, j);
      OccursInSlice(s, 0, |r|, p, j);
      assert false;
    }
  }

  lemma PrefixKeepsAbsence(s: string, t: string, p: string)
    requires t <= s && !Contains(s, p)
    ensures !Contains(t, p)
  {
    if Contains(t, p) {
      var j :| 0 <= j <= |t| && Occurs(t, p, j);
      assert s[0..|t|] == t;
      OccursInSlice(s, 0, |t|, p, j);
      assert false;
    }
  }

  // ---------------------------------------------------------------------
  // `s.replace(p, rep)`: left to right, non-overlapping

  function Replace(s: string, p: string, rep: string): string
    requires |p| > 0
    decreases |s|
  {
    if |s| < |p| then s
    else if s[..|p|] == p then rep + Replace(s[|p|..], p, rep)
    else [s[0]] + Replace(s[1..], p, rep)
  }

  lemma {:induction false} ReplaceAbsent(s: string, p: string, rep: string)
    requires |p| > 0 && !Contains(s, p)
    ensures Replace(s, p, rep) == s
    decreases |s|
  {
    if |s| >= |p| {
      assert s[..|p|] != p by { assert !Occurs(s, p, 0); }
      assert !Contains(s[1..], p) by {
        if Contains(s[1..], p) {
          var j :| 0 <= j <= |s[1..]| && Occurs(s[1..], p, j);
          assert s[1..|s|] == s[1..];
          OccursInSlice(s, 1, |s|, p, j);
          assert false;
        }
      }
      ReplaceAbsent(s[1..], p, rep);
    }
  }

  /** A prefix that lacks the pattern's first character is copied as it is. */
  lemma {:induction false} ReplaceSkipsPrefix(a: string, b: string, p: string, rep: string)
    requires |p| > 0 && p[0] !in a
    ensures Replace(a + b, p, rep) == a + Replace(b, p, rep)
    decreases |a|
  {
    if a != [] {
      var s := a + b;
      if |s| < |p| {
        assert Replace(b, p, rep) == b;
      } else {
        assert s[0] == a[0] && s[..|p|][0] == a[0];
        assert s[1..] == a[1..] + b;
        ReplaceSkipsPrefix(a[1..], b, p, rep);
        assert [a[0]] + a[1..] == a;
        assert [a[0]] + (a[1..] + Replace(b, p, rep)) == a + Replace(b, p, rep);
      }
    } else {
      assert a + b == b;
    }
  }

  /** `s` with every `c` dropped and the other characters kept in order. */
  function Without(s: string, c: char): (r: string)
    ensures c !in r
    ensures forall d :: d in r <==> d in s && d != c
  {
    if s == [] then [] else (if s[0] == c then [] else [s[0]]) + Without(s[1..], c)
  }

  /** Filtering keeps every other character as often as it occurs. */
  lemma {:induction false} WithoutCounts(s: string, c: char)
    ensures multiset(Without(s, c)) == multiset(s)[c := 0]
    decreases |s|
  {
    if s != [] {
      WithoutCounts(s[1..], c);
      assert s == [s[0]] + s[1..];
    }
  }

  /** Deleting a one-character pattern is filtering that character out. */
  lemma {:induction false} ReplaceOneChar(s: string, c: char)
    ensures Replace(s, [c], "") == Without(s, c)
    decreases |s|
  {
    if s != [] {
      ReplaceOneChar(s[1..], c);
      if s[0] == c {
        assert s[..1] == [c];
        assert Replace(s, [c], "") == Replace(s[1..], [c], "");
        assert Without(s, c) == Without(s[1..], c);
      } else {
        assert s[..1] != [c];
        assert Replace(s, [c], "") == [s[0]] + Replace(s[1..], [c], "");
        assert Without(s, c) == [s[0]] + Without(s[1..], c);
      }
    }
  }

  // ---------------------------------------------------------------------
  // `s.strip()`

  function LeadingSpaces(s: string): (n: nat)
    ensures n <= |s|
    ensures forall i :: 0 <= i < n ==> IsSpace(s[i])
    ensures n < |s| ==> !IsSpace(s[n])
  {
    if s == [] || !IsSpace(s[0]) then 0 else 1 + LeadingSpaces(s[1..])
  }

  function TrailingSpaces(s: string): (n: nat)
    ensures n <= |s|
    ensures forall i :: |s| - n <= i < |s| ==> IsSpace(s[i])
    ensures n < |s| ==> !IsSpace(s[|s| - 1 - n])
  {
    if s == [] || !IsSpace(s[|s| - 1]) then 0 else 1 + TrailingSpaces(s[..|s| - 1])
  }

  /** `s.strip()`: drop leading and trailing whitespace. The result neither
      starts nor ends with whitespace, which fixes it; `StripSlice` says
      that only the outer whitespace goes. */
  function Strip(s: string): (r: string)
    ensures |r| > 0 ==> !IsSpace(r[0]) && !IsSpace(r[|r| - 1])
    ensures forall c :: c in r ==> c in s
    ensures s == [] || (!IsSpace(s[0]) && !IsSpace(s[|s| - 1])) ==> r == s
  {
    var a := LeadingSpaces(s);
    var t := s[a..];
    t[..|t| - TrailingSpaces(t)]
  }

  /** The stripped text is a slice of `s` with only whitespace outside it. */
  lemma StripSlice(s: string)
    ensures exists a, b ::
      0 <= a <= b <= |s| && Strip(s) == s[a..b] &&
      forall i :: (0 <= i < a || b <= i < |s|) ==> IsSpace(s[i])
  {
    var a := LeadingSpaces(s);
    var t := s[a..];
    var n := TrailingSpaces(t);
    assert forall i :: |s| - n <= i < |s| ==> s[i] == t[i - a];
    assert t[..|t| - n] == s[a..|s| - n];
  }

  // ---------------------------------------------------------------------
  // `s.split()` and `' '.join(ws)`

  /** A word of `s.split()`: non-empty, no whitespace. */
  predicate IsWord(w: string) {
    |w| > 0 && forall i :: 0 <= i < |w| ==> !IsSpace(w[i])
  }

  predicate AllWords(ws: seq<string>) {
    forall k :: 0 <= k < |ws| ==> IsWord(ws[k])
  }

  function WordLength(s: string): (n: nat)
    ensures n <= |s|
    ensures forall i :: 0 <= i < n ==> !IsSpace(s[i])
    ensures n < |s| ==> IsSpace(s[n])
  {
    if s == [] || IsSpace(s[0]) then 0 else 1 + WordLength(s[1..])
  }

  /** `s.split()`: the maximal runs of non-whitespace, in order. */
  function Split(s: string): (ws: seq<string>)
    ensures AllWords(ws)
    decreases |s|
  {
    if s == [] then []
    else if IsSpace(s[0]) then Split(s[1..])
    else
      var n := WordLength(s);
      [s[..n]] + Split(s[n..])
  }

  /** `' '.join(ws)` */
  function Join(ws: seq<string>): string {
    if ws == [] then ""
    else if |ws| == 1 then ws[0]
    else ws[0] + " " + Join(ws[1..])
  }

  /** No leading or trailing whitespace, no whitespace but ' ', and never two
      spaces in a row. */
  predicate SingleSpaced(s: string) {
    (|s| > 0 ==> !IsSpace(s[0]) && !IsSpace(s[|s| - 1])) &&
    (forall i :: 0 <= i < |s| && IsSpace(s[i]) ==> s[i] == ' ') &&
    (forall i :: 0 < i < |s| && IsSpace(s[i]) ==> !IsSpace(s[i - 1]))
  }

  lemma {:induction false} WordLengthOfJoin(w: string, rest: string)
    requires IsWord(w) && (rest == [] || IsSpace(rest[0]))
    ensures WordLength(w + rest) == |w|
    decreases |w|
  {
    var s := w + rest;
    assert s[0] == w[0] && !IsSpace(s[0]);
    if |w| > 1 {
      assert s[1..] == w[1..] + rest;
      assert IsWord(w[1..]) by { assert forall i :: 0 <= i < |w| - 1 ==> w[1..][i] == w[i + 1]; }
      WordLengthOfJoin(w[1..], rest);
    } else {
      assert s[1..] == rest;
    }
  }

  /** Splitting a join of words gives the words back. */
  lemma {:induction false} SplitJoin(ws: seq<string>)
    requires AllWords(ws)
    ensures Split(Join(ws)) == ws
    decreases |ws|
  {
    if ws == [] {
    } else if |ws| == 1 {
      var w := ws[0];
      WordLengthOfJoin(w, "");
      assert w + "" == w;
      assert w[|w|..] == [];
    } else {
      var w, rest := ws[0], Join(ws[1..]);
      var s := w + " " + rest;
      assert s == w + (" " + rest);
      WordLengthOfJoin(w, " " + rest);
      assert s[..|w|] == w;
      assert s[|w|..] == " " + rest;
      assert s[|w|..][1..] == rest;
      SplitJoin(ws[1..]);
    }
  }

  /** A join of words is single-spaced. */
  lemma {:induction false} JoinSingleSpaced(ws: seq<string>)
    requires AllWords(ws)
    ensures SingleSpaced(Join(ws))
    ensures |ws| > 0 ==> |Join(ws)| > 0
    decreases |ws|
  {
    if |ws| > 1 {
      var w, rest := ws[0], Join(ws[1..]);
      JoinSingleSpaced(ws[1..]);
      var s := Join(ws);
      assert s == w + " " + rest;
      forall i | 0 <= i < |s| && IsSpace(s[i])
        ensures s[i] == ' '
      {
        if i >= |w| + 1 { assert s[i] == rest[i - |w| - 1]; }
      }
      forall i | 0 < i < |s| && IsSpace(s[i])
        ensures !IsSpace(s[i - 1])
      {
        if i > |w| + 1 { assert s[i] == rest[i - |w| - 1] && s[i - 1] == rest[i - |w| - 2]; }
      }
    }
  }

  /** Every character of a word of `s.split()` comes from `s`. */
  lemma {:induction false} SplitChars(s: string, c: char)
    requires c !in s
    ensures forall k :: 0 <= k < |Split(s)| ==> c !in Split(s)[k]
    decreases |s|
  {
    if s != [] {
      if IsSpace(s[0]) {
        SplitChars(s[1..], c);
      } else {
        var n := WordLength(s);
        assert c !in s[n..];
        SplitChars(s[n..], c);
      }
    }
  }

  /** Every character of a join other than the separator comes from a word. */
  lemma {:induction false} JoinChars(ws: seq<string>, c: char)
    requires c != ' '
    requires forall k :: 0 <= k < |ws| ==> c !in ws[k]
    ensures c !in Join(ws)
    decreases |ws|
  {
    if |ws| > 1 {
      JoinChars(ws[1..], c);
    }
  }
}
