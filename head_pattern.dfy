/** The two fixed regular-expression substitutions of the job-title rewrite,
    `re.sub(pattern, replacement, title, flags=re.IGNORECASE)` with

      HeadItSecurity:  r"Head.*?IT.*?(Cyber|Security).*"  ->  "Head of IT Security"
      HeadIt:          r"Head.*?IT.*"                     ->  "Head of IT"

    `.` matches anything but a newline, so a match lies inside one line and
    its trailing `.*` runs to the end of that line; `re.sub` then resumes
    after it, that is, on the next line. The lazy `.*?` parts decide which
    characters the groups cover, not whether or where a match starts. */
module HeadPattern {
  import opened PyStr

  datatype Pattern = HeadItSecurity | HeadIt

  function Replacement(p: Pattern): string {
    match p
    case HeadItSecurity => "Head of IT Security"
    case HeadIt => "Head of IT"
  }

  /** Case-insensitive occurrence of the lower-case literal `w` at `i`. */
  predicate CiOccurs(s: string, w: string, i: nat) {
    Occurs(Lower(s), w, i)
  }

  /** No newline in `s[a..b]`. */
  predicate LineFree(s: string, a: nat, b: nat) {
    forall m :: a <= m < b && m < |s| ==> s[m] != '\n'
  }

  /** "cyber" or "security", ignoring case, at `k`, with no newline between
      `i` and its end. */
  predicate KeywordAt(s: string, i: nat, k: nat) {
    (CiOccurs(s, "cyber", k) && LineFree(s, i, k + 5)) ||
    (CiOccurs(s, "security", k) && LineFree(s, i, k + 8))
  }

  ghost predicate KeywordFrom(s: string, i: nat, from: nat) {
    exists k: nat :: from <= k && KeywordAt(s, i, k)
  }

  /** "it", ignoring case, at `j` after the "head" at `i`, completed as the
      pattern requires. */
  ghost predicate ItAt(p: Pattern, s: string, i: nat, j: nat) {
    i + 4 <= j && CiOccurs(s, "it", j) &&
    match p
    case HeadIt => LineFree(s, i, j + 2)
    case HeadItSecurity => KeywordFrom(s, i, j + 2)
  }

  /** The regular-expression meaning of the pattern: it matches `s` starting
      at `i` when "head", then "it", then (for HeadItSecurity) "cyber" or
      "security" appear in that order, ignoring case, without a newline in
      between. */
  ghost predicate MatchesAt(p: Pattern, s: string, i: nat) {
    CiOccurs(s, "head", i) && exists j: nat :: ItAt(p, s, i, j)
  }

  /** Whether the part of the pattern after "Head" can be completed in the
      lower-cased line `l` from position `from` on. */
  function TailMatches(p: Pattern, l: string, from: nat): bool
    requires from <= |l|
  {
    match FindFrom(l, "it", from)
    case None => false
    case Some(j) =>
      p.HeadIt? || FindFrom(l, "cyber", j + 2).Some? || FindFrom(l, "security", j + 2).Some?
  }

  /** Where the first match in the line starts, if there is one. */
  function LineMatch(p: Pattern, line: string): Option<nat> {
    var l := Lower(line);
    match FindFrom(l, "head", 0)
    case None => None
    case Some(i) => if TailMatches(p, l, i + 4) then Some(i) else None
  }

  function SubstituteLine(p: Pattern, line: string): string {
    match LineMatch(p, line)
    case None => line
    case Some(i) => line[..i] + Replacement(p)
  }

  /** `re.sub(p, Replacement(p), s, flags=re.IGNORECASE)`, line by line. */
  function Substitute(p: Pattern, s: string): string
    decreases |s|
  {
    match FindFrom(s, "\n", 0)
    case None => SubstituteLine(p, s)
    case Some(n) => SubstituteLine(p, s[..n]) + "\n" + Substitute(p, s[n + 1..])
  }

  /** A completed tail after the "head" at `h` is a match at `h`. */
  lemma TailSufficient(p: Pattern, line: string, h: nat)
    requires '\n' !in line
    requires CiOccurs(line, "head", h) && TailMatches(p, Lower(line), h + 4)
    ensures MatchesAt(p, line, h)
  {
    var l := Lower(line);
    var j := FindFrom(l, "it", h + 4).value;
    if p.HeadItSecurity? {
      if FindFrom(l, "cyber", j + 2).Some? {
        assert KeywordAt(line, h, FindFrom(l, "cyber", j + 2).value);
      } else {
        assert KeywordAt(line, h, FindFrom(l, "security", j + 2).value);
      }
    }
    assert ItAt(p, line, h, j);
  }

  /** A match at or after `h` means the tail can be completed after `h`. */
  lemma TailNecessary(p: Pattern, line: string, h: nat, i: nat)
    requires h <= i && h + 4 <= |line| && MatchesAt(p, line, i)
    ensures TailMatches(p, Lower(line), h + 4)
  {
    var l := Lower(line);
    var j: nat :| ItAt(p, line, i, j);
    var j0 := FindFrom(l, "it", h + 4).value;
    assert j0 <= j;
    if p.HeadItSecurity? {
      var k: nat :| j + 2 <= k && KeywordAt(line, i, k);
      if CiOccurs(line, "cyber", k) {
        assert FindFrom(l, "cyber", j0 + 2).Some?;
      } else {
        assert FindFrom(l, "security", j0 + 2).Some?;
      }
    }
  }

  /** `LineMatch` finds the leftmost position where the pattern matches. */
  lemma LineMatchLeftmost(p: Pattern, line: string)
    requires '\n' !in line
    ensures LineMatch(p, line).Some? ==>
      MatchesAt(p, line, LineMatch(p, line).value) &&
      forall i :: 0 <= i < LineMatch(p, line).value ==> !MatchesAt(p, line, i)
    ensures LineMatch(p, line).None? ==> forall i :: !MatchesAt(p, line, i)
  {
    var l := Lower(line);
    match FindFrom(l, "head", 0)
    case None =>
    case Some(h) =>
      if TailMatches(p, l, h + 4) {
        TailSufficient(p, line, h);
      } else {
        forall i | MatchesAt(p, line, i)
          ensures false
        {
          TailNecessary(p, line, h, i);
        }
      }
  }

  /** A match inside the slice `s[m..e]` is a match in `s`. */
  lemma MatchInSlice(p: Pattern, s: string, m: nat, e: nat, i: nat)
    requires m <= e <= |s|
    requires MatchesAt(p, s[m..e], i)
    ensures MatchesAt(p, s, m + i)
  {
    var t := s[m..e];
    assert Lower(t) == Lower(s)[m..e];
    OccursInSlice(Lower(s), m, e, "head", i);
    var j: nat :| ItAt(p, t, i, j);
    OccursInSlice(Lower(s), m, e, "it", j);
    match p
    case HeadIt =>
      LineFreeInSlice(s, m, e, i, j + 2);
      assert ItAt(p, s, m + i, m + j);
    case HeadItSecurity =>
      var k: nat :| j + 2 <= k && KeywordAt(t, i, k);
      var w := if CiOccurs(t, "cyber", k) then "cyber" else "security";
      OccursInSlice(Lower(s), m, e, w, k);
      LineFreeInSlice(s, m, e, i, k + |w|);
      assert KeywordAt(s, m + i, m + k);
      assert ItAt(p, s, m + i, m + j);
  }

  lemma LineFreeInSlice(s: string, m: nat, e: nat, a: nat, b: nat)
    requires m <= e <= |s| && b <= e - m && LineFree(s[m..e], a, b)
    ensures LineFree(s, m + a, m + b)
  {
    forall x | m + a <= x < m + b && x < |s| ensures s[x] != '\n' {
      assert s[m..e][x - m] == s[x];
    }
  }

  lemma NoNewlineFound(s: string)
    requires '\n' !in s
    ensures FindFrom(s, "\n", 0).None?
  {
    forall x: nat ensures !Occurs(s, "\n", x) {
      if x + 1 <= |s| { assert s[x..x + 1] == [s[x]]; }
    }
  }

  lemma NewlineAt(s: string, x: nat)
    requires Occurs(s, "\n", x)
    ensures x < |s| && s[x] == '\n'
  {
    assert s[x..x + 1][0] == s[x];
  }

  lemma NotNewlineAt(s: string, x: nat)
    requires x < |s| && !Occurs(s, "\n", x)
    ensures s[x] != '\n'
  {
    assert s[x..x + 1] == [s[x]];
  }

  lemma FirstNewline(s: string, n: nat)
    requires Occurs(s, "\n", n) && forall x :: 0 <= x < n ==> !Occurs(s, "\n", x)
    ensures n < |s| && '\n' !in s[..n]
    ensures s == s[..n] + "\n" + s[n + 1..]
  {
    var line := s[..n];
    forall x | 0 <= x < n ensures line[x] != '\n' {
      NotNewlineAt(s, x);
    }
    NewlineAt(s, n);
    assert s[n..] == "\n" + s[n + 1..];
    assert s == line + s[n..];
  }

  /** Without a match anywhere, the substitution changes nothing. */
  lemma {:induction false} SubstituteNoMatch(p: Pattern, s: string)
    requires forall i :: !MatchesAt(p, s, i)
    ensures Substitute(p, s) == s
    decreases |s|
  {
    match FindFrom(s, "\n", 0)
    case None =>
      forall x | 0 <= x < |s| ensures s[x] != '\n' {
        NotNewlineAt(s, x);
      }
      LineMatchLeftmost(p, s);
    case Some(n) =>
      FirstNewline(s, n);
      var line, rest := s[..n], s[n + 1..];
      LineMatchLeftmost(p, line);
      if LineMatch(p, line).Some? {
        assert s[0..n] == line;
        MatchInSlice(p, s, 0, n, LineMatch(p, line).value);
      }
      forall i ensures !MatchesAt(p, rest, i) {
        if MatchesAt(p, rest, i) {
          assert s[n + 1..|s|] == rest;
          MatchInSlice(p, s, n + 1, |s|, i);
        }
      }
      SubstituteNoMatch(p, rest);
  }

  /** On a one-line string with a leftmost match at `i`, everything from `i`
      on is replaced. */
  lemma SubstituteLeftmost(p: Pattern, s: string, i: nat)
    requires '\n' !in s
    requires MatchesAt(p, s, i) && forall j :: 0 <= j < i ==> !MatchesAt(p, s, j)
    ensures Substitute(p, s) == s[..i] + Replacement(p)
  {
    NoNewlineFound(s);
    LineMatchLeftmost(p, s);
    var i0 := LineMatch(p, s).value;
    assert !(i0 < i) && !(i < i0);
  }
}
