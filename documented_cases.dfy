/** Concrete inputs worked through the model. */
module DocumentedCases {
  import opened PyStr
  import opened HeadPattern
  import opened JobTitle
  import opened CompanyName

  // ---------------------------------------------------------------------
  // Company names

  lemma CutKeeps(s: string, k: nat, v: string)
    requires k < |Suffixes| && CutSuffixes(s, Suffixes[..k]) == v && !Contains(v, Suffixes[k])
    ensures CutSuffixes(s, Suffixes[..k + 1]) == v
  {
    assert Suffixes[..k + 1][..k] == Suffixes[..k];
    BeforeSpec(v, Suffixes[k]);
  }

  lemma CutsAt(s: string, k: nat, v: string, i: nat)
    requires k < |Suffixes| && CutSuffixes(s, Suffixes[..k]) == v
    requires Occurs(v, Suffixes[k], i) && Suffixes[k][0] !in v[..i]
    ensures CutSuffixes(s, Suffixes[..k + 1]) == v[..i]
  {
    assert Suffixes[..k + 1][..k] == Suffixes[..k];
    BeforeFirstChar(v, Suffixes[k], i);
  }

  /** What is left of a cut name without ',' or '-' is its stripped self,
      and then a single word. */
  lemma LastStages(d: string, w: string)
    requires ',' !in d && '-' !in d && Strip(d) == w && IsWord(w)
    ensures CapitalizeCompany(Depunctuate(d)) == CompanyWord(w)
  {
    MissingChar(d, ",", ',');
    ReplaceAbsent(d, ",", "");
    MissingChar(d, "-", '-');
    ReplaceAbsent(d, "-", "");
    SplitJoin([w]);
  }

  lemma IbmCutFirst()
    ensures CutSuffixes("IBM Corp", Suffixes[..2]) == "IBM Corp"
  {
    var s := "IBM Corp";
    assert Suffixes[..0] == [];
    MissingChar(s, "Inc", 'n');
    CutKeeps(s, 0, s);
    MissingChar(s, "Corporation", 'a');
    CutKeeps(s, 1, s);
  }

  lemma IbmCutAtCorp()
    ensures CutSuffixes("IBM Corp", Suffixes[..3]) == "IBM "
  {
    var s := "IBM Corp";
    IbmCutFirst();
    assert s[4..8] == "Corp" && Occurs(s, "Corp", 4);
    assert s[..4] == "IBM " && 'C' !in s[..4];
    CutsAt(s, 2, s, 4);
  }

  lemma IbmCut()
    ensures CutSuffixes("IBM Corp", Suffixes) == "IBM "
  {
    var s, t := "IBM Corp", "IBM ";
    IbmCutAtCorp();
    MissingChar(t, "LLC", 'L');
    CutKeeps(s, 3, t);
    MissingChar(t, "Ltd", 'L');
    CutKeeps(s, 4, t);
    MissingChar(t, "Limited", 'L');
    CutKeeps(s, 5, t);
    assert Suffixes[..6] == Suffixes;
  }

  lemma IbmOutside()
    ensures Outside("IBM Corp") == "IBM Corp"
  {
    OutsideWithoutOpen("IBM Corp");
  }

  /** `FormattedName` stage by stage. */
  lemma NameStages(s: string, o: string, c: string, r: string)
    requires Outside(s) == o && CutSuffixes(Strip(o), Suffixes) == c
    requires CapitalizeCompany(Depunctuate(c)) == r
    ensures FormattedName(s) == r
  {
  }

  lemma IbmStrip(t: string)
    requires t == "IBM "
    ensures Strip(t) == "IBM"
  {
    assert t[..3] == "IBM" && TrailingSpaces(t[..3]) == 0;
    assert TrailingSpaces(t) == 1;
    assert LeadingSpaces(t) == 0;
    assert t[0..] == t;
  }

  lemma IbmLast(d: string)
    requires d == "IBM "
    ensures CapitalizeCompany(Depunctuate(d)) == "IBM"
  {
    IbmStrip(d);
    LastStages(d, "IBM");
    assert IsUpper("IBM") by { assert IsUpperChar("IBM"[0]); }
  }

  lemma IbmStages(s: string)
    requires s == "IBM Corp"
    ensures FormattedName(s) == "IBM"
  {
    IbmOutside();
    IbmCut();
    IbmLast("IBM ");
    NameStages(s, s, "IBM ", "IBM");
  }

  /** An all-upper-case word survives and the suffix goes. */
  lemma IbmCorp()
    ensures FormattedName("IBM Corp") == "IBM"
  {
    IbmStages("IBM Corp");
  }

  lemma AcmeOutside()
    ensures Outside("Acme (Holdings) Inc.") == "Acme  Inc."
  {
    GroupRemoved("Acme ", "Holdings", " Inc.");
    assert "Acme (Holdings) Inc." == "Acme " + "(" + "Holdings" + ")" + " Inc.";
    assert "Acme " + " Inc." == "Acme  Inc.";
  }

  lemma AcmeCut()
    ensures CutSuffixes("Acme  Inc.", Suffixes) == "Acme  "
  {
    var s := "Acme  Inc.";
    assert Suffixes[..0] == [];
    assert s[6..9] == "Inc";
    CutsAt(s, 0, s, 6);
    var t := "Acme  ";
    assert s[..6] == t;
    MissingChar(t, "Corporation", 'C');
    CutKeeps(s, 1, t);
    MissingChar(t, "Corp", 'C');
    CutKeeps(s, 2, t);
    MissingChar(t, "LLC", 'L');
    CutKeeps(s, 3, t);
    MissingChar(t, "Ltd", 'L');
    CutKeeps(s, 4, t);
    MissingChar(t, "Limited", 'L');
    CutKeeps(s, 5, t);
    assert Suffixes[..6] == Suffixes;
  }

  lemma AcmeWord()
    ensures CompanyWord("Acme") == "Acme"
  {
    assert !IsUpper("Acme") by { assert IsLowerChar("Acme"[1]); }
    assert Lower("cme") == "cme";
  }

  lemma AcmeStrip(t: string)
    requires t == "Acme  "
    ensures Strip(t) == "Acme"
  {
    assert t[..5][..4] == t[..4] == "Acme" && t[..5][4] == ' ';
    assert TrailingSpaces(t[..4]) == 0;
    assert TrailingSpaces(t) == 2;
    assert LeadingSpaces(t) == 0;
    assert t[0..] == t;
  }

  lemma AcmeLast(d: string)
    requires d == "Acme  "
    ensures CapitalizeCompany(Depunctuate(d)) == "Acme"
  {
    AcmeStrip(d);
    LastStages(d, "Acme");
    AcmeWord();
  }

  /** The parenthesised part and the suffix both go. */
  lemma AcmeHoldings()
    ensures FormattedName("Acme (Holdings) Inc.") == "Acme"
  {
    AcmeOutside();
    assert Strip("Acme  Inc.") == "Acme  Inc.";
    AcmeCut();
    AcmeLast("Acme  ");
    NameStages("Acme (Holdings) Inc.", "Acme  Inc.", "Acme  ", "Acme");
  }

  // ---------------------------------------------------------------------
  // Job titles

  lemma LowerAlready(w: string)
    requires forall i :: 0 <= i < |w| ==> !IsUpperChar(w[i])
    ensures Lower(w) == w
  {
  }

  lemma JoinFour(a: string, b: string, c: string, d: string)
    ensures Join([a, b, c, d]) == a + " " + b + " " + c + " " + d
  {
    assert [a, b, c, d][1..] == [b, c, d];
    JoinThree(b, c, d);
  }

  lemma JoinThree(a: string, b: string, c: string)
    ensures Join([a, b, c]) == a + " " + b + " " + c
  {
    assert [b, c][1..] == [c];
    assert Join([b, c]) == b + " " + c;
    assert [a, b, c][1..] == [b, c];
    assert Join([a, b, c]) == a + " " + Join([b, c]);
  }

  lemma SplitFour(a: string, b: string, c: string, d: string)
    requires IsWord(a) && IsWord(b) && IsWord(c) && IsWord(d)
    ensures Split(a + " " + b + " " + c + " " + d) == [a, b, c, d]
  {
    var ws := [a, b, c, d];
    assert IsWord(ws[0]) && IsWord(ws[1]) && IsWord(ws[2]) && IsWord(ws[3]);
    JoinFour(a, b, c, d);
    SplitJoin(ws);
  }

  lemma TitleWordsFour(a: string, b: string, c: string, d: string,
                       a': string, b': string, c': string, d': string)
    requires TitleWord(a) == a' && TitleWord(b) == b' && TitleWord(c) == c' && TitleWord(d) == d'
    ensures TitleWords([a, b, c, d]) == [a', b', c', d']
  {
  }

  /** The capitalisation pass on a four-word title, word by word. */
  lemma CapitalizeFour(a: string, b: string, c: string, d: string,
                       a': string, b': string, c': string, d': string)
    requires IsWord(a) && IsWord(b) && IsWord(c) && IsWord(d)
    requires TitleWord(a) == a' && TitleWord(b) == b' && TitleWord(c) == c' && TitleWord(d) == d'
    ensures CapitalizeTitle(a + " " + b + " " + c + " " + d) == a' + " " + b' + " " + c' + " " + d'
  {
    var t := a + " " + b + " " + c + " " + d;
    SplitFour(a, b, c, d);
    CapitalizeTitleWords(t);
    TitleWordsFour(a, b, c, d, a', b', c', d');
    JoinFour(a', b', c', d');
  }

  /** The capitalisation pass on a three-word title, word by word. */
  lemma CapitalizeThree(a: string, b: string, c: string, a': string, b': string, c': string)
    requires IsWord(a) && IsWord(b) && IsWord(c)
    requires TitleWord(a) == a' && TitleWord(b) == b' && TitleWord(c) == c'
    ensures CapitalizeTitle(a + " " + b + " " + c) == a' + " " + b' + " " + c'
  {
    var t := a + " " + b + " " + c;
    SplitThree(a, b, c);
    CapitalizeTitleWords(t);
    assert TitleWords([a, b, c]) == [a', b', c'];
    JoinThree(a', b', c');
  }

  lemma SplitThree(a: string, b: string, c: string)
    requires IsWord(a) && IsWord(b) && IsWord(c)
    ensures Split(a + " " + b + " " + c) == [a, b, c]
  {
    var ws := [a, b, c];
    assert IsWord(ws[0]) && IsWord(ws[1]) && IsWord(ws[2]);
    JoinThree(a, b, c);
    SplitJoin(ws);
  }

  lemma CapitalizeOrdinary(w: string, c: string)
    requires IsWord(w) && |w| > 0 && w !in SmallWords && w != "it"
    requires forall i :: 0 <= i < |w| ==> !IsUpperChar(w[i])
    requires c == [UpperChar(w[0])] + w[1..]
    ensures TitleWord(w) == c
  {
    LowerAlready(w);
    LowerAlready(w[1..]);
  }

  lemma SmallWordOf()
    ensures IsWord("of") && TitleWord("of") == "of"
  {
    LowerAlready("of");
  }

  lemma ItWord()
    ensures TitleWord("it") == "IT"
  {
    LowerAlready("it");
    LowerIT();
  }

  lemma NoRuleFires(t: string)
    requires 'D' !in t && 'C' !in t && 'H' !in t
    ensures Title(t) == CapitalizeTitle(t)
  {
    MissingChar(t, "Director", 'D');
    MissingChar(t, "CISO", 'C');
    MissingChar(t, LongCiso, 'C');
    MissingChar(t, "Head", 'H');
  }

  lemma HeadWord()
    ensures IsWord("head") && TitleWord("head") == "Head"
  {
    CapitalizeOrdinary("head", "Head");
  }

  lemma CyberWord()
    ensures IsWord("cyber") && TitleWord("cyber") == "Cyber"
  {
    CapitalizeOrdinary("cyber", "Cyber");
  }

  lemma SecurityWord()
    ensures IsWord("security") && TitleWord("security") == "Security"
  {
    CapitalizeOrdinary("security", "Security");
  }

  lemma SecurityWords()
    ensures IsWord("head") && IsWord("of") && IsWord("cyber") && IsWord("security")
    ensures TitleWord("head") == "Head" && TitleWord("of") == "of"
    ensures TitleWord("cyber") == "Cyber" && TitleWord("security") == "Security"
  {
    HeadWord();
    SmallWordOf();
    CyberWord();
    SecurityWord();
  }

  lemma CapitalizeSecurityWords()
    ensures CapitalizeTitle("head" + " " + "of" + " " + "cyber" + " " + "security") ==
      "Head" + " " + "of" + " " + "Cyber" + " " + "Security"
  {
    SecurityWords();
    CapitalizeFour("head", "of", "cyber", "security", "Head", "of", "Cyber", "Security");
  }

  lemma SecurityLiterals()
    ensures "head of cyber security" == "head" + " " + "of" + " " + "cyber" + " " + "security"
    ensures "Head of Cyber Security" == "Head" + " " + "of" + " " + "Cyber" + " " + "Security"
  {
  }

  lemma CapitalizeHeadOfCyberSecurity()
    ensures CapitalizeTitle("head of cyber security") == "Head of Cyber Security"
  {
    CapitalizeSecurityWords();
    SecurityLiterals();
  }

  /** The case-sensitive "Head" guard does not see "head": the title is only
      re-capitalised. */
  lemma HeadOfCyberSecurity()
    ensures Title("head of cyber security") == "Head of Cyber Security"
  {
    NoRuleFires("head of cyber security");
    CapitalizeHeadOfCyberSecurity();
  }

  lemma CapitalizeVpOfSales()
    ensures CapitalizeTitle("vp of sales") == "Vp of Sales"
  {
    CapitalizeOrdinary("vp", "Vp");
    SmallWordOf();
    CapitalizeOrdinary("sales", "Sales");
    assert "vp of sales" == "vp" + " " + "of" + " " + "sales";
    assert "Vp of Sales" == "Vp" + " " + "of" + " " + "Sales";
    CapitalizeThree("vp", "of", "sales", "Vp", "of", "Sales");
  }

  /** Small words stay lower case; the others are capitalised. */
  lemma VpOfSales()
    ensures Title("vp of sales") == "Vp of Sales"
  {
    NoRuleFires("vp of sales");
    CapitalizeVpOfSales();
  }

  lemma CapitalizeHeadOfIt()
    ensures CapitalizeTitle("head of it") == "Head of IT"
  {
    CapitalizeOrdinary("head", "Head");
    SmallWordOf();
    ItWord();
    assert "head of it" == "head" + " " + "of" + " " + "it";
    assert "Head of IT" == "Head" + " " + "of" + " " + "IT";
    CapitalizeThree("head", "of", "it", "Head", "of", "IT");
  }

  /** A standalone "it" becomes "IT". */
  lemma HeadOfIt()
    ensures Title("head of it") == "Head of IT"
  {
    NoRuleFires("head of it");
    CapitalizeHeadOfIt();
  }

  lemma SplitTwo(a: string, b: string)
    requires IsWord(a) && IsWord(b)
    ensures Split(a + " " + b) == [a, b]
  {
    var ws := [a, b];
    assert IsWord(ws[0]) && IsWord(ws[1]);
    JoinTwo(a, b);
    SplitJoin(ws);
  }

  lemma JoinTwo(a: string, b: string)
    ensures Join([a, b]) == a + " " + b
  {
    assert [a, b][1..] == [b];
  }

  lemma TitleWordsTwo(a: string, b: string, a': string, b': string)
    requires TitleWord(a) == a' && TitleWord(b) == b'
    ensures TitleWords([a, b]) == [a', b']
  {
  }

  /** The capitalisation pass on a two-word title, word by word. */
  lemma CapitalizeTwo(a: string, b: string, a': string, b': string)
    requires IsWord(a) && IsWord(b)
    requires TitleWord(a) == a' && TitleWord(b) == b'
    ensures CapitalizeTitle(a + " " + b) == a' + " " + b'
  {
    var t := a + " " + b;
    SplitTwo(a, b);
    CapitalizeTitleWords(t);
    TitleWordsTwo(a, b, a', b');
    JoinTwo(a', b');
  }

  lemma CapitalizeHeadIt()
    ensures CapitalizeTitle("head it") == "Head IT"
  {
    CapitalizeOrdinary("head", "Head");
    ItWord();
    assert "head it" == "head" + " " + "it";
    assert "Head IT" == "Head" + " " + "IT";
    CapitalizeTwo("head", "it", "Head", "IT");
  }

  lemma HeadItGuardFires(t: string)
    requires t == "Head IT"
    ensures !Contains(t, "Director") && !Contains(t, "CISO") && !Contains(t, LongCiso)
    ensures HeadItGuard(t)
  {
    MissingChar(t, "Director", 'D');
    MissingChar(t, "CISO", 'C');
    MissingChar(t, LongCiso, 'C');
    assert t[..4] == "Head" && t[5..7] == "IT";
    assert Occurs(t, "Head", 0) && Occurs(t, "IT", 5);
  }

  lemma HeadItNoSecurity(t: string)
    requires t == "Head IT"
    ensures !MentionsSecurity(t)
  {
    var l := Lower(t);
    assert l == "head it";
    MissingChar(l, "cyber", 'c');
    MissingChar(l, "security", 's');
  }

  /** The title formatter is not idempotent: the capitalisation pass makes
      a title that the Head rule then rewrites. */
  lemma HeadItNotIdempotent()
    ensures Title("head it") == "Head IT"
    ensures Title("Head IT") == "Head of IT"
  {
    NoRuleFires("head it");
    CapitalizeHeadIt();
    HeadItGuardFires("Head IT");
    HeadItNoSecurity("Head IT");
    HeadItTitle("Head IT");
  }

  lemma Ciso()
    ensures Title("CISO") == "CISO"
  {
    var t := "CISO";
    MissingChar(t, "Director", 'D');
    assert Occurs(t, "CISO", 0);
    assert !Contains(t, "CIO") by {
      assert t[0..3][2] != "CIO"[2] && t[1..4][0] != "CIO"[0];
    }
  }

  lemma CioAndCiso()
    ensures Title("CIO and CISO person") == "CIO and CISO"
  {
    var t := "CIO and CISO person";
    MissingChar(t, "Director", 'D');
    assert t[8..12] == "CISO" && Occurs(t, "CISO", 8);
    assert t[..3] == "CIO" && Occurs(t, "CIO", 0);
  }

  /** The three deletions leave `r + " "` of a text ending in " CISO". */
  lemma DeletionsBeforeCiso(r: string)
    requires 'C' !in r && '(' !in r && 'f' !in r
    ensures WithoutCiso(r + " CISO") == r + " "
  {
    var t := r + " CISO";
    var a := r + " ";
    assert t == a + "CISO";
    assert 'f' !in t && '(' !in t;
    MissingChar(t, LongCiso, 'f');
    ReplaceAbsent(t, LongCiso, "");
    MissingChar(t, "(CISO)", '(');
    ReplaceAbsent(t, "(CISO)", "");
    ReplaceSkipsPrefix(a, "CISO", "CISO", "");
    assert Replace("CISO", "CISO", "") == "";
  }

  lemma StripTrailingSpace(r: string)
    requires |r| > 0 && !IsSpace(r[0]) && !IsSpace(r[|r| - 1])
    ensures Strip(r + " ") == r
  {
    var a := r + " ";
    assert a[..|a| - 1] == r;
    assert TrailingSpaces(a) == 1;
    assert LeadingSpaces(a) == 0;
    assert a[0..][..|a| - 1] == r;
  }

  /** A title whose only CISO mention is a final " CISO" comes out of the
      CISO step unchanged. */
  lemma CisoAlreadyLast(r: string)
    requires |r| > 0 && !IsSpace(r[0]) && !IsSpace(r[|r| - 1])
    requires 'C' !in r && '(' !in r && 'f' !in r
    ensures CisoRewrite(r + " CISO") == r + " CISO"
  {
    var t := r + " CISO";
    assert Occurs(t, "CISO", |r| + 1) by { assert t[|r| + 1..|r| + 5] == "CISO"; }
    DeletionsBeforeCiso(r);
    StripTrailingSpace(r);
  }

  /** A "head", a later "it" and a later "security", ignoring case, on one
      line make a match of the longer pattern at the "head". */
  lemma SecurityMatch(t: string, i: nat, j: nat, k: nat)
    requires '\n' !in t && i + 4 <= j && j + 2 <= k
    requires CiOccurs(t, "head", i) && CiOccurs(t, "it", j) && CiOccurs(t, "security", k)
    ensures MatchesAt(HeadItSecurity, t, i)
  {
    assert KeywordAt(t, i, k);
    assert ItAt(HeadItSecurity, t, i, j);
  }

  /** No match can start before the first 'h' of the lower-cased title. */
  lemma NoMatchBefore(p: Pattern, t: string, i: nat)
    requires i <= |t| && 'h' !in Lower(t)[..i]
    ensures forall j :: 0 <= j < i ==> !MatchesAt(p, t, j)
  {
    var l := Lower(t);
    forall j | 0 <= j < i ensures !CiOccurs(t, "head", j) {
      assert l[..i][j] == l[j];
      if j + 4 <= |l| { assert l[j..j + 4][0] == l[j]; }
    }
  }

  lemma DirectorLower()
    ensures Lower("Director Head IT Security CISO") == "director head it security ciso"
  {
  }

  lemma DirectorLowerFacts(l: string)
    requires l == "director head it security ciso"
    ensures Occurs(l, "head", 9) && Occurs(l, "it", 14) && Occurs(l, "security", 17)
    ensures 'h' !in l[..9]
  {
    assert l[9..13] == "head";
    assert l[14..16] == "it";
    assert l[17..25] == "security";
    assert l[..9] == "director ";
  }

  lemma DirectorFacts(t: string)
    requires t == "Director Head IT Security CISO"
    ensures Contains(t, "Director") && HeadItGuard(t) && MentionsSecurity(t) && '\n' !in t
    ensures t[..9] == "Director "
  {
    assert t[..8] == "Director";
    assert Occurs(t, "Director", 0);
    assert t[9..13] == "Head";
    assert Occurs(t, "Head", 9);
    assert t[14..16] == "IT";
    assert Occurs(t, "IT", 14);
    DirectorLower();
    DirectorLowerFacts(Lower(t));
  }

  lemma DirectorHeadMatch(t: string)
    requires t == "Director Head IT Security CISO"
    ensures MatchesAt(HeadItSecurity, t, 9)
    ensures forall j :: 0 <= j < 9 ==> !MatchesAt(HeadItSecurity, t, j)
  {
    DirectorFacts(t);
    DirectorLower();
    DirectorLowerFacts(Lower(t));
    SecurityMatch(t, 9, 14, 17);
    NoMatchBefore(HeadItSecurity, t, 9);
  }

  lemma DirectorCisoStep(t: string)
    requires t == "Director Head IT Security CISO"
    ensures CisoRewrite(t) == t
  {
    var r := "Director Head IT Security";
    assert t == r + " CISO";
    CisoAlreadyLast(r);
  }

  lemma DirectorTitleAt(t: string)
    requires t == "Director Head IT Security CISO"
    ensures Title(t) == t[..9] + "Head of IT Security"
  {
    DirectorFacts(t);
    DirectorCisoStep(t);
    DirectorHeadMatch(t);
    DirectorHeadRewrite(t, 9);
  }

  lemma DirectorLiteral()
    ensures "Director " + "Head of IT Security" == "Director Head of IT Security"
  {
  }

  /** The Head step of the Director rule can swallow the " CISO" that the
      CISO step put at the end. */
  lemma DirectorLosesCiso()
    ensures Title("Director Head IT Security CISO") == "Director Head of IT Security"
  {
    var t := "Director Head IT Security CISO";
    DirectorTitleAt(t);
    DirectorFacts(t);
    DirectorLiteral();
  }

  // ---------------------------------------------------------------------
  // A Director title whose long form is split by "(CISO)"

  /** The long form, split where "(CISO)" is inserted in the example. */
  lemma LongCisoParts(ci: string, so: string)
    requires ci == "Chief Information " && so == "Security Officer"
    ensures LongCiso == ci + so
    ensures 'C' !in ci[1..] && '(' !in ci && '(' !in so && 'C' !in so
  {
  }

  /** The long form does not occur in `ci + "(CISO)" + so`: its only 'C's
      are at 0, where the "(" breaks the match, and too near the end. */
  lemma LongFormKept(ci: string, so: string)
    requires ci == "Chief Information " && so == "Security Officer"
    ensures Replace(ci + "(CISO)" + so, LongCiso, "") == ci + "(CISO)" + so
  {
    LongCisoParts(ci, so);
    var s := ci + "(CISO)" + so;
    assert s[..|LongCiso|][18] == '(' != LongCiso[18];
    var a, b := ci[1..] + "(", "CISO)" + so;
    assert |b| == 21 < |LongCiso|;
    assert s[1..] == a + b;
    ReplaceSkipsPrefix(a, b, LongCiso, "");
    assert s == [s[0]] + (a + b);
  }

  /** Deleting "(CISO)" joins the two halves of the long form. */
  lemma ParenCisoDeleted(h: string, so: string)
    requires '(' !in h && '(' !in so
    ensures Replace(h + "(CISO)" + so, "(CISO)", "") == h + so
  {
    ReplaceSkipsPrefix(h, "(CISO)" + so, "(CISO)", "");
    assert ("(CISO)" + so)[..6] == "(CISO)" && ("(CISO)" + so)[6..] == so;
    MissingChar(so, "(CISO)", '(');
    ReplaceAbsent(so, "(CISO)", "");
    assert h + "(CISO)" + so == h + ("(CISO)" + so);
  }

  /** A text that does not start with `p` and has no later `p[0]` holds no
      `p`. */
  lemma ReplaceMissesAll(s: string, p: string)
    requires |p| > 0 && |s| >= |p| && s[..|p|] != p && p[0] !in s[1..]
    ensures Replace(s, p, "") == s
  {
    MissingChar(s[1..], p, p[0]);
    ReplaceAbsent(s[1..], p, "");
    assert s == [s[0]] + s[1..];
  }

  /** The long form itself holds no "CISO". */
  lemma LongFormHasNoCiso(ci: string, so: string)
    requires ci == "Chief Information " && so == "Security Officer"
    ensures Replace(LongCiso, "CISO", "") == LongCiso
  {
    LongCisoParts(ci, so);
    var l := ci + so;
    assert l[..4][1] == 'h';
    assert l[1..] == ci[1..] + so;
    ReplaceMissesAll(l, "CISO");
  }

  /** Deleting the long form changes nothing. */
  lemma SplitLongFormKept(d: string, ci: string, so: string)
    requires d == "Director " && ci == "Chief Information " && so == "Security Officer"
    ensures Replace(d + ci + "(CISO)" + so, LongCiso, "") == d + ci + "(CISO)" + so
  {
    var t := d + ci + "(CISO)" + so;
    assert t == d + (ci + "(CISO)" + so);
    LongFormKept(ci, so);
    ReplaceSkipsPrefix(d, ci + "(CISO)" + so, LongCiso, "");
  }

  /** Deleting "(CISO)" then joins the two halves of the long form. */
  lemma SplitLongFormJoined(d: string, ci: string, so: string)
    requires d == "Director " && ci == "Chief Information " && so == "Security Officer"
    ensures Replace(Replace(d + ci + "(CISO)" + so, LongCiso, ""), "(CISO)", "") == d + LongCiso
  {
    LongCisoParts(ci, so);
    SplitLongFormKept(d, ci, so);
    ParenCisoDeleted(d + ci, so);
    assert d + ci + so == d + LongCiso;
  }

  /** The three deletions leave "Director " followed by the whole long form. */
  lemma SplitLongFormDeletions(d: string, ci: string, so: string)
    requires d == "Director " && ci == "Chief Information " && so == "Security Officer"
    ensures WithoutCiso(d + ci + "(CISO)" + so) == d + LongCiso
  {
    SplitLongFormJoined(d, ci, so);
    ReplaceSkipsPrefix(d, LongCiso, "CISO", "");
    LongFormHasNoCiso(ci, so);
  }

  /** The CISO step puts " CISO" after the rejoined long form. */
  lemma SplitLongFormCisoStep(d: string, ci: string, so: string)
    requires d == "Director " && ci == "Chief Information " && so == "Security Officer"
    ensures CisoRewrite(d + ci + "(CISO)" + so) == d + LongCiso + " CISO"
  {
    var t := d + ci + "(CISO)" + so;
    assert t[|d + ci|..|d + ci| + 6] == "(CISO)";
    assert Occurs(t, "(CISO)", |d + ci|);
    SplitLongFormDeletions(d, ci, so);
    var w := d + LongCiso;
    assert w[0] == 'D' && w[|w| - 1] == 'r';
    assert (w + " CISO")[|w + " CISO"| - 1] == 'O';
  }

  lemma StartsWithDirector(d: string, r: string)
    requires d == "Director "
    ensures Contains(d + r, "Director")
  {
    assert (d + r)[..8] == "Director";
    assert Occurs(d + r, "Director", 0);
  }

  /** The rewritten title has no 'H', so the Head step does not fire, and
      it holds the long form right after "Director ". */
  lemma LongFormResult(d: string, l: string)
    requires d == "Director " && l == LongCiso
    ensures !HeadItGuard(d + l + " CISO")
    ensures Contains(d + l + " CISO", l)
  {
    var c := d + l + " CISO";
    assert 'H' !in d && 'H' !in l && 'H' !in " CISO";
    MissingChar(c, "Head", 'H');
    assert c[|d|..|d| + |l|] == l;
    assert Occurs(c, l, |d|);
  }

  /** Neither Head step nor any other rule touches the result. */
  lemma SplitLongFormTitle(d: string, ci: string, so: string)
    requires d == "Director " && ci == "Chief Information " && so == "Security Officer"
    ensures Title(d + ci + "(CISO)" + so) == d + LongCiso + " CISO"
    ensures Contains(d + LongCiso + " CISO", LongCiso)
  {
    StartsWithDirector(d, ci + "(CISO)" + so);
    assert d + (ci + "(CISO)" + so) == d + ci + "(CISO)" + so;
    SplitLongFormCisoStep(d, ci, so);
    LongFormResult(d, LongCiso);
  }

  lemma SplitLongFormInput()
    ensures "Director Chief Information (CISO)Security Officer" ==
      "Director " + "Chief Information " + "(CISO)" + "Security Officer"
  {
  }

  lemma SplitLongFormOutput()
    ensures "Director Chief Information Security Officer CISO" ==
      "Director " + "Chief Information Security Officer" + " CISO"
  {
  }

  /** A Director title can keep the long form: deleting "(CISO)" joins the
      two halves of "Chief Information Security Officer" after the deletion
      of the long form has already run. */
  lemma DirectorKeepsLongForm()
    ensures Title("Director Chief Information (CISO)Security Officer") ==
      "Director Chief Information Security Officer CISO"
    ensures Contains(Title("Director Chief Information (CISO)Security Officer"), LongCiso)
  {
    SplitLongFormTitle("Director ", "Chief Information ", "Security Officer");
    SplitLongFormInput();
    SplitLongFormOutput();
  }
}
