/** `format_job_title`: an ordered list of rewrite rules for a job title.
    The first of "Director", a CISO mention, and a "Head ... IT" mention that
    the title contains decides the rule; a title with none of them is
    re-capitalised word by word. */
module JobTitle {
  import opened PyStr
  import opened Cells
  import opened HeadPattern

  const LongCiso := "Chief Information Security Officer"

  /** Words the capitalisation pass keeps in lower case. */
  const SmallWords: set<string> := {"of", "and", "in", "on", "at", "for", "to"}

  /** `format_job_title(value)`: anything but text passes through. */
  function FormatJobTitle(v: Cell): (r: Cell)
    ensures !v.Text? ==> r == v
    ensures r.Text? <==> v.Text?
  {
    match v
    case Text(t) => Text(Title(t))
    case _ => v
  }

  function Title(t: string): string {
    if Contains(t, "Director") then DirectorTitle(t)
    else if Contains(t, "CISO") || Contains(t, LongCiso) then
      (if Contains(t, "CIO") then "CIO and CISO" else "CISO")
    else if HeadItGuard(t) then
      (if MentionsSecurity(t) then "Head of IT Security" else "Head of IT")
    else CapitalizeTitle(t)
  }

  // ---------------------------------------------------------------------
  // The "Director" rule

  predicate MentionsCiso(t: string) {
    Contains(t, LongCiso) || Contains(t, "(CISO)") || Contains(t, "CISO")
  }

  /** The three deletions, in the order they are applied. */
  function WithoutCiso(t: string): string {
    Replace(Replace(Replace(t, LongCiso, ""), "(CISO)", ""), "CISO", "")
  }

  /** First step of the Director rule: move every CISO mention to the end. */
  function CisoRewrite(t: string): string {
    if MentionsCiso(t) then Strip(Strip(WithoutCiso(t)) + " CISO") else t
  }

  /** "Head" and one of "IT", "Information Technology", all case-sensitive. */
  predicate HeadItGuard(t: string) {
    Contains(t, "Head") && (Contains(t, "IT") || Contains(t, "Information Technology"))
  }

  /** "cyber" or "security" in the lower-cased title. */
  predicate MentionsSecurity(t: string) {
    Contains(Lower(t), "cyber") || Contains(Lower(t), "security")
  }

  function HeadPatternFor(t: string): Pattern {
    if MentionsSecurity(t) then HeadItSecurity else HeadIt
  }

  /** Second step of the Director rule. */
  function HeadRewrite(t: string): string {
    if HeadItGuard(t) then Substitute(HeadPatternFor(t), t) else t
  }

  function DirectorTitle(t: string): string {
    HeadRewrite(CisoRewrite(t))
  }

  // ---------------------------------------------------------------------
  // Default rule: capitalisation

  function FirstPassWord(w: string): string {
    if Lower(w) in SmallWords then Lower(w) else Capitalize(w)
  }

  function SecondPassWord(w: string): string {
    if Lower(w) != "it" then w else "IT"
  }

  /** The two `' '.join(... for word in title.split())` passes. */
  function CapitalizeTitle(t: string): string {
    var ws := Split(t);
    var first := Join(seq(|ws|, k requires 0 <= k < |ws| => FirstPassWord(ws[k])));
    var ws2 := Split(first);
    Join(seq(|ws2|, k requires 0 <= k < |ws2| => SecondPassWord(ws2[k])))
  }

  /** What the two passes together do to one word. */
  function TitleWord(w: string): string {
    SecondPassWord(FirstPassWord(w))
  }

  function TitleWords(ws: seq<string>): (os: seq<string>)
    ensures |os| == |ws|
  {
    seq(|ws|, k requires 0 <= k < |ws| => TitleWord(ws[k]))
  }

  lemma LowerIT()
    ensures Lower("IT") == "it" && IsWord("IT")
  {
    assert Lower("IT")[0] == 'i' && Lower("IT")[1] == 't';
  }

  /** One word through both passes keeps its letters, ignoring case, and
      takes the shape the rule gives it; a second application changes
      nothing. */
  lemma TitleWordShape(w: string)
    requires IsWord(w)
    ensures IsWord(FirstPassWord(w)) && IsWord(TitleWord(w))
    ensures Lower(FirstPassWord(w)) == Lower(w)
    ensures Lower(TitleWord(w)) == Lower(w)
    ensures Lower(w) in SmallWords ==> TitleWord(w) == Lower(w)
    ensures Lower(w) == "it" ==> TitleWord(w) == "IT"
    ensures Lower(w) !in SmallWords && Lower(w) != "it" ==> TitleWord(w) == Capitalize(w)
    ensures TitleWord(TitleWord(w)) == TitleWord(w)
  {
    CaseMappingKeepsWords(w);
    LowerIdempotent(w);
    LowerOfCapitalize(w);
    LowerIT();
    if Lower(w) !in SmallWords && Lower(w) != "it" {
      CapitalizeIdempotent(w);
    }
  }

  /** The two passes act word by word: the output is the join of
      `TitleWord` over the words of the input. */
  lemma {:induction false} CapitalizeTitleWords(t: string)
    ensures CapitalizeTitle(t) == Join(TitleWords(Split(t)))
    ensures Split(CapitalizeTitle(t)) == TitleWords(Split(t))
  {
    var ws := Split(t);
    var f := seq(|ws|, k requires 0 <= k < |ws| => FirstPassWord(ws[k]));
    forall k | 0 <= k < |ws| ensures IsWord(f[k]) && Lower(f[k]) == Lower(ws[k]) {
      TitleWordShape(ws[k]);
    }
    SplitJoin(f);
    var g := seq(|f|, k requires 0 <= k < |f| => SecondPassWord(f[k]));
    assert g == TitleWords(ws);
    forall k | 0 <= k < |ws| ensures IsWord(TitleWords(ws)[k]) {
      TitleWordShape(ws[k]);
    }
    SplitJoin(TitleWords(ws));
  }

  /** A word the capitalisation pass produced is lower case if it is a
      small word, "IT" if it is "it" in any case, and capitalised otherwise. */
  predicate FormattedTitleWord(o: string) {
    (Lower(o) in SmallWords ==> o == Lower(o)) &&
    (Lower(o) == "it" ==> o == "IT") &&
    (Lower(o) !in SmallWords && Lower(o) != "it" ==> o == Capitalize(o))
  }

  lemma TitleWordFormatted(w: string)
    requires IsWord(w)
    ensures FormattedTitleWord(TitleWord(w))
  {
    TitleWordShape(w);
    LowerIdempotent(w);
    if Lower(w) !in SmallWords && Lower(w) != "it" {
      CapitalizeIdempotent(w);
    }
  }

  /** The capitalisation pass gives single-spaced output whose words are
      the input's words, ignoring case, each in the shape the rule gives. */
  lemma CapitalizeTitleShape(t: string)
    ensures SingleSpaced(CapitalizeTitle(t))
    ensures |Split(CapitalizeTitle(t))| == |Split(t)|
    ensures forall k :: 0 <= k < |Split(t)| ==>
      Lower(Split(CapitalizeTitle(t))[k]) == Lower(Split(t)[k])
    ensures forall o :: o in Split(CapitalizeTitle(t)) ==> FormattedTitleWord(o)
  {
    var ws := Split(t);
    var os := TitleWords(ws);
    CapitalizeTitleWords(t);
    forall k | 0 <= k < |ws|
      ensures IsWord(os[k]) && Lower(os[k]) == Lower(ws[k]) && FormattedTitleWord(os[k])
    {
      TitleWordShape(ws[k]);
      TitleWordFormatted(ws[k]);
    }
    JoinSingleSpaced(os);
  }

  /** Capitalising an already capitalised title changes nothing. */
  lemma CapitalizeTitleIdempotent(t: string)
    ensures CapitalizeTitle(CapitalizeTitle(t)) == CapitalizeTitle(t)
  {
    var r := CapitalizeTitle(t);
    var ws := Split(t);
    CapitalizeTitleWords(t);
    CapitalizeTitleWords(r);
    assert TitleWords(Split(r)) == TitleWords(ws) by {
      forall k | 0 <= k < |ws| ensures TitleWords(Split(r))[k] == TitleWords(ws)[k] {
        TitleWordShape(ws[k]);
      }
    }
  }

  // ---------------------------------------------------------------------
  // The rules, one lemma each

  /** Without "Director", a CISO mention gives one of two fixed titles. */
  lemma CisoTitle(t: string)
    requires !Contains(t, "Director") && (Contains(t, "CISO") || Contains(t, LongCiso))
    ensures Contains(t, "CIO") ==> Title(t) == "CIO and CISO"
    ensures !Contains(t, "CIO") ==> Title(t) == "CISO"
  {
  }

  /** Without "Director" or a CISO mention, a "Head ... IT" title collapses. */
  lemma HeadItTitle(t: string)
    requires !Contains(t, "Director") && !Contains(t, "CISO") && !Contains(t, LongCiso)
    requires HeadItGuard(t)
    ensures MentionsSecurity(t) ==> Title(t) == "Head of IT Security"
    ensures !MentionsSecurity(t) ==> Title(t) == "Head of IT"
  {
  }

  /** The CISO step of the Director rule leaves the rest of the title,
      trimmed, followed by " CISO" -- or just "CISO" if nothing is left. */
  lemma CisoRewriteShape(t: string)
    requires MentionsCiso(t)
    ensures var rest := Strip(WithoutCiso(t));
      CisoRewrite(t) == if rest == "" then "CISO" else rest + " CISO"
  {
    var rest := Strip(WithoutCiso(t));
    if rest == "" {
      assert rest + " CISO" == " CISO";
      assert LeadingSpaces(" CISO") == 1;
      assert " CISO"[1..] == "CISO";
    } else {
      var s := rest + " CISO";
      assert s[0] == rest[0] && s[|s| - 1] == 'O';
    }
  }

  /** When the Head step does not fire, or its pattern matches nowhere, the
      Director rule returns the result of the CISO step. */
  lemma DirectorWithoutHeadRewrite(t: string)
    requires Contains(t, "Director")
    requires var c := CisoRewrite(t);
      !HeadItGuard(c) || forall i :: !MatchesAt(HeadPatternFor(c), c, i)
    ensures Title(t) == CisoRewrite(t)
  {
    var c := CisoRewrite(t);
    if HeadItGuard(c) {
      SubstituteNoMatch(HeadPatternFor(c), c);
    }
  }

  /** A Director title that meets neither step's guard is returned as it is. */
  lemma DirectorUntouched(t: string)
    requires Contains(t, "Director") && !MentionsCiso(t) && !HeadItGuard(t)
    ensures Title(t) == t
  {
  }

  /** When the Head step fires on a one-line title, everything from the
      leftmost match on becomes "Head of IT Security" or "Head of IT". */
  lemma DirectorHeadRewrite(t: string, i: nat)
    requires Contains(t, "Director")
    requires var c := CisoRewrite(t);
      HeadItGuard(c) && '\n' !in c &&
      MatchesAt(HeadPatternFor(c), c, i) &&
      forall j :: 0 <= j < i ==> !MatchesAt(HeadPatternFor(c), c, j)
    ensures var c := CisoRewrite(t);
      Title(t) == c[..i] + Replacement(HeadPatternFor(c))
  {
    var c := CisoRewrite(t);
    SubstituteLeftmost(HeadPatternFor(c), c, i);
  }

  /** A title meeting no guard goes through the capitalisation pass. */
  lemma DefaultTitle(t: string)
    requires !Contains(t, "Director") && !Contains(t, "CISO") && !Contains(t, LongCiso)
    requires !HeadItGuard(t)
    ensures Title(t) == CapitalizeTitle(t)
    ensures SingleSpaced(Title(t))
    ensures CapitalizeTitle(Title(t)) == Title(t)
  {
    CapitalizeTitleShape(t);
    CapitalizeTitleIdempotent(t);
  }
}
