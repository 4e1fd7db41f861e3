/** `format_company_name`: drop parenthesised parts, cut the name at legal
    suffixes, drop commas and hyphens, and capitalise the words that are not
    already all upper case. */
module CompanyName {
  import opened PyStr
  import opened Cells

  /** The suffixes, in the order the name is cut at them. */
  const Suffixes: seq<string> := ["Inc", "Corporation", "Corp", "LLC", "Ltd", "Limited"]

  // ---------------------------------------------------------------------
  // Stage 1: parentheses

  /** The nesting depth after reading `c` at depth `d`: a ')' with nothing
      open is an ordinary character. */
  function StepDepth(d: nat, c: char): nat {
    if c == '(' then d + 1
    else if c == ')' && d > 0 then d - 1
    else d
  }

  /** The number of '(' still open after reading `s`. */
  function Depth(s: string): nat {
    if s == [] then 0 else StepDepth(Depth(s[..|s| - 1]), s[|s| - 1])
  }

  /** Position `i` of `s` is copied: read at depth 0 and not an opening
      parenthesis. */
  predicate KeptAt(s: string, i: nat)
    requires i < |s|
  {
    Depth(s[..i]) == 0 && s[i] != '('
  }

  /** What the character loop accumulates in `cleaned_name`. */
  function Outside(s: string): string {
    if s == [] then []
    else Outside(s[..|s| - 1]) + (if KeptAt(s, |s| - 1) then [s[|s| - 1]] else [])
  }

  /** The positions of `s` that are copied, in increasing order. */
  function KeptPositions(s: string): seq<nat> {
    if s == [] then []
    else KeptPositions(s[..|s| - 1]) + (if KeptAt(s, |s| - 1) then [|s| - 1] else [])
  }

  /** The loop of lines 54-62, with `stack` holding the open '(' characters. */
  method StripParentheses(name: string) returns (cleaned: string)
    ensures cleaned == Outside(name)
  {
    var stack: seq<char> := [];
    cleaned := "";
    for i := 0 to |name|
      invariant cleaned == Outside(name[..i])
      invariant |stack| == Depth(name[..i])
      invariant forall k :: 0 <= k < |stack| ==> stack[k] == '('
    {
      var c := name[i];
      assert name[..i + 1][..i] == name[..i];
      if c == '(' {
        stack := stack + ['('];
      } else if c == ')' && stack != [] {
        stack := stack[..|stack| - 1];
      } else if stack == [] {
        cleaned := cleaned + [c];
      }
    }
    assert name[..|name|] == name;
  }

  /** No '(' survives the first stage. */
  lemma {:induction false} OutsideHasNoOpen(s: string)
    ensures '(' !in Outside(s)
    decreases |s|
  {
    if s != [] {
      OutsideHasNoOpen(s[..|s| - 1]);
    }
  }

  /** The copied positions are in range, strictly increasing, and give
      the output character by character. */
  lemma {:induction false} KeptPositionsShape(s: string)
    ensures |KeptPositions(s)| == |Outside(s)|
    ensures forall k :: 0 <= k < |KeptPositions(s)| ==>
      KeptPositions(s)[k] < |s| && Outside(s)[k] == s[KeptPositions(s)[k]]
    ensures forall k, k' :: 0 <= k < k' < |KeptPositions(s)| ==>
      KeptPositions(s)[k] < KeptPositions(s)[k']
    decreases |s|
  {
    if s != [] {
      var init := s[..|s| - 1];
      KeptPositionsShape(init);
      forall k | 0 <= k < |KeptPositions(init)|
        ensures s[KeptPositions(init)[k]] == init[KeptPositions(init)[k]]
      {
      }
    }
  }

  lemma KeptAtInit(s: string, i: nat)
    requires i < |s| - 1
    ensures KeptAt(s[..|s| - 1], i) == KeptAt(s, i)
  {
    assert s[..|s| - 1][..i] == s[..i];
  }

  /** A position is copied exactly when it is read at depth 0 and is not
      '('. */
  lemma {:induction false} KeptPositionsMembers(s: string)
    ensures forall i :: 0 <= i < |s| ==> (i in KeptPositions(s) <==> KeptAt(s, i))
    decreases |s|
  {
    if s != [] {
      var init := s[..|s| - 1];
      KeptPositionsMembers(init);
      KeptPositionsShape(init);
      forall i | 0 <= i < |init| ensures KeptAt(init, i) == KeptAt(s, i) {
        KeptAtInit(s, i);
      }
      assert |s| - 1 !in KeptPositions(init);
    }
  }

  /** The first stage keeps exactly the characters read at depth 0, other
      than '(' itself (a ')' with nothing open among them), in their order:
      its output is the subsequence of `s` at `KeptPositions(s)`. */
  lemma OutsideIsKeptSubsequence(s: string)
    ensures |KeptPositions(s)| == |Outside(s)|
    ensures forall k :: 0 <= k < |KeptPositions(s)| ==>
      KeptPositions(s)[k] < |s| && Outside(s)[k] == s[KeptPositions(s)[k]]
    ensures forall k, k' :: 0 <= k < k' < |KeptPositions(s)| ==>
      KeptPositions(s)[k] < KeptPositions(s)[k']
    ensures forall i :: 0 <= i < |s| ==> (i in KeptPositions(s) <==> KeptAt(s, i))
  {
    KeptPositionsShape(s);
    KeptPositionsMembers(s);
  }

  /** A ')' read with nothing open is copied through. */
  lemma UnmatchedCloseKept(s: string, i: nat)
    requires i < |s| && s[i] == ')' && Depth(s[..i]) == 0
    ensures i in KeptPositions(s)
  {
    OutsideIsKeptSubsequence(s);
  }

  /** A name without '(' passes the first stage unchanged. */
  lemma {:induction false} OutsideWithoutOpen(s: string)
    requires '(' !in s
    ensures Depth(s) == 0 && Outside(s) == s
    decreases |s|
  {
    if s != [] {
      var init := s[..|s| - 1];
      assert '(' !in init;
      OutsideWithoutOpen(init);
      assert s == init + [s[|s| - 1]];
    }
  }

  /** Once every '(' read so far is closed, the rest of the name is
      stripped independently of what came before. */
  lemma {:induction false} OutsideConcat(x: string, y: string)
    requires Depth(x) == 0
    ensures Depth(x + y) == Depth(y)
    ensures Outside(x + y) == Outside(x) + Outside(y)
    decreases |y|
  {
    if y == [] {
      assert x + y == x;
    } else {
      var y0 := y[..|y| - 1];
      assert (x + y)[..|x + y| - 1] == x + y0;
      OutsideConcat(x, y0);
    }
  }

  lemma {:induction false} OpenGroup(inner: string)
    requires '(' !in inner && ')' !in inner
    ensures Depth("(" + inner) == 1 && Outside("(" + inner) == ""
    decreases |inner|
  {
    if inner == [] {
      assert "(" + inner == "(";
      assert "("[..0] == [];
    } else {
      var i0 := inner[..|inner| - 1];
      assert ("(" + inner)[..|"(" + inner| - 1] == "(" + i0;
      OpenGroup(i0);
    }
  }

  /** A parenthesised part without nested parentheses is dropped whole. */
  lemma GroupDropped(inner: string)
    requires '(' !in inner && ')' !in inner
    ensures Depth("(" + inner + ")") == 0 && Outside("(" + inner + ")") == ""
  {
    OpenGroup(inner);
    var g := "(" + inner + ")";
    assert g[..|g| - 1] == "(" + inner;
  }

  /** A parenthesised part without nested parentheses, after a text
      without '(', is dropped and leaves nothing open. */
  lemma GroupAfter(a: string, inner: string)
    requires '(' !in a && '(' !in inner && ')' !in inner
    ensures Outside(a + ("(" + inner + ")")) == a && Depth(a + ("(" + inner + ")")) == 0
  {
    OutsideWithoutOpen(a);
    GroupDropped(inner);
    OutsideConcat(a, "(" + inner + ")");
  }

  /** A parenthesised part without nested parentheses, between two texts
      without '(', is removed and the rest is kept as it is. */
  lemma GroupRemoved(a: string, inner: string, c: string)
    requires '(' !in a && '(' !in c && '(' !in inner && ')' !in inner
    ensures Outside(a + "(" + inner + ")" + c) == a + c
  {
    var x := a + ("(" + inner + ")");
    GroupAfter(a, inner);
    OutsideWithoutOpen(c);
    OutsideConcat(x, c);
    assert a + "(" + inner + ")" + c == x + c;
  }

  // ---------------------------------------------------------------------
  // Stage 2: suffixes

  /** The name after being cut at each of `xs`, in order. */
  function CutSuffixes(s: string, xs: seq<string>): string
    requires forall k :: 0 <= k < |xs| ==> |xs[k]| > 0
  {
    if xs == [] then s else Before(CutSuffixes(s, xs[..|xs| - 1]), xs[|xs| - 1])
  }

  /** Cutting gives a prefix of the name that contains none of the suffixes,
      and leaves a name containing none of them alone. Each step cuts the
      name it is given at the first occurrence of its suffix, or leaves it
      alone when the suffix does not occur. */
  lemma {:induction false} CutSuffixesSpec(s: string, xs: seq<string>)
    requires forall k :: 0 <= k < |xs| ==> |xs[k]| > 0
    ensures CutSuffixes(s, xs) <= s
    ensures forall x :: x in xs ==> !Contains(CutSuffixes(s, xs), x)
    ensures (forall x :: x in xs ==> !Contains(s, x)) ==> CutSuffixes(s, xs) == s
    ensures xs != [] ==>
      var prev, x, r := CutSuffixes(s, xs[..|xs| - 1]), xs[|xs| - 1], CutSuffixes(s, xs);
      (!Contains(prev, x) ==> r == prev) &&
      (Contains(prev, x) ==>
        Occurs(prev, x, |r|) && r == prev[..|r|] && forall j :: 0 <= j < |r| ==> !Occurs(prev, x, j))
    decreases |xs|
  {
    if xs != [] {
      var init, x := xs[..|xs| - 1], xs[|xs| - 1];
      var prev := CutSuffixes(s, init);
      CutSuffixesSpec(s, init);
      BeforeSpec(prev, x);
      forall y | y in init ensures !Contains(Before(prev, x), y) {
        PrefixKeepsAbsence(prev, Before(prev, x), y);
      }
      assert xs == init + [x];
    }
  }

  /** The loop of lines 66-67. */
  method TruncateSuffixes(name: string) returns (r: string)
    ensures r == CutSuffixes(name, Suffixes)
    ensures r <= name
    ensures forall x :: x in Suffixes ==> !Contains(r, x)
    ensures (forall x :: x in Suffixes ==> !Contains(name, x)) ==> r == name
  {
    r := name;
    for i := 0 to |Suffixes|
      invariant r == CutSuffixes(name, Suffixes[..i])
    {
      assert Suffixes[..i + 1][..i] == Suffixes[..i];
      r := Before(r, Suffixes[i]);
    }
    assert Suffixes[..|Suffixes|] == Suffixes;
    CutSuffixesSpec(name, Suffixes);
  }

  // ---------------------------------------------------------------------
  // Stages 3 and 4: punctuation and capitalisation

  /** Line 70. */
  function Depunctuate(s: string): string {
    Strip(Replace(Replace(s, ",", ""), "-", ""))
  }

  /** Line 73, one word: an all-upper-case word is kept as it is. */
  function CompanyWord(w: string): string {
    if IsUpper(w) then w else Capitalize(w)
  }

  function CompanyWords(ws: seq<string>): (os: seq<string>)
    ensures |os| == |ws|
  {
    seq(|ws|, k requires 0 <= k < |ws| => CompanyWord(ws[k]))
  }

  /** Line 73. */
  function CapitalizeCompany(s: string): string {
    Join(CompanyWords(Split(s)))
  }

  /** The whole formatter on a text value, stage by stage. */
  function FormattedName(s: string): string {
    CapitalizeCompany(Depunctuate(CutSuffixes(Strip(Outside(s)), Suffixes)))
  }

  /** `format_company_name(value)`: anything but text passes through. */
  method FormatCompanyName(v: Cell) returns (r: Cell)
    ensures !v.Text? ==> r == v
    ensures v.Text? ==> r == Text(FormattedName(v.s))
  {
    r := v;
    if v.Text? {
      var cleaned := StripParentheses(v.s);
      var name := Strip(cleaned);
      name := TruncateSuffixes(name);
      name := Depunctuate(name);
      name := CapitalizeCompany(name);
      r := Text(name);
    }
  }

  /** Stage 3 filters out every ',' and then every '-', keeping the other
      characters in order, and strips the rest. */
  lemma DepunctuateFilters(s: string)
    ensures Depunctuate(s) == Strip(Without(Without(s, ','), '-'))
  {
    assert "," == [','] && "-" == ['-'];
    ReplaceOneChar(s, ',');
    ReplaceOneChar(Without(s, ','), '-');
  }

  /** So no comma or hyphen survives stage 3, and no '(' appears that was
      absent before it. */
  lemma DepunctuateChars(s: string)
    ensures ',' !in Depunctuate(s) && '-' !in Depunctuate(s)
    ensures '(' !in s ==> '(' !in Depunctuate(s)
  {
    DepunctuateFilters(s);
  }

  /** The last stage: single-spaced output whose words are the input's
      words, each kept if all upper case and capitalised otherwise; it
      adds no character that is neither a letter nor a space. */
  lemma CapitalizeCompanyShape(s: string)
    ensures SingleSpaced(CapitalizeCompany(s))
    ensures Split(CapitalizeCompany(s)) == CompanyWords(Split(s))
    ensures forall k :: 0 <= k < |Split(s)| ==>
      (IsUpper(Split(s)[k]) ==> Split(CapitalizeCompany(s))[k] == Split(s)[k]) &&
      (!IsUpper(Split(s)[k]) ==> Split(CapitalizeCompany(s))[k] == Capitalize(Split(s)[k]))
  {
    var ws := Split(s);
    var os := CompanyWords(ws);
    forall k | 0 <= k < |ws| ensures IsWord(os[k]) {
      CaseMappingKeepsWords(ws[k]);
    }
    JoinSingleSpaced(os);
    SplitJoin(os);
  }

  /** The last stage adds no character that is neither a letter nor a space. */
  lemma CapitalizeCompanyChars(s: string, c: char)
    requires c != ' ' && !IsUpperChar(c) && !IsLowerChar(c) && c !in s
    ensures c !in CapitalizeCompany(s)
  {
    var ws := Split(s);
    var os := CompanyWords(ws);
    SplitChars(s, c);
    forall k | 0 <= k < |os| ensures c !in os[k] {
      CapitalizeChars(ws[k], c);
    }
    JoinChars(os, c);
  }

  lemma NoOpenAfterCut(s: string)
    ensures '(' !in CutSuffixes(Strip(Outside(s)), Suffixes)
  {
    var n := Strip(Outside(s));
    OutsideHasNoOpen(s);
    var cut := CutSuffixes(n, Suffixes);
    CutSuffixesSpec(n, Suffixes);
    assert '(' !in n;
  }

  /** Stages 3 and 4 leave no ',' or '-' and no '(' that was absent, and
      give single-spaced output made of the words after stage 3, upper-case
      words kept and the others capitalised. */
  lemma LastStagesShape(cut: string)
    requires '(' !in cut
    ensures var r := CapitalizeCompany(Depunctuate(cut));
      ',' !in r && '-' !in r && '(' !in r &&
      SingleSpaced(r) && Split(r) == CompanyWords(Split(Depunctuate(cut)))
  {
    var d := Depunctuate(cut);
    DepunctuateChars(cut);
    CapitalizeCompanyChars(d, ',');
    CapitalizeCompanyChars(d, '-');
    CapitalizeCompanyChars(d, '(');
    CapitalizeCompanyShape(d);
  }

  /** The formatted name has no comma, hyphen or '(', is single-spaced, and
      its words are those of the name after stage 3, upper-case words kept
      and the others capitalised. */
  lemma FormattedNameShape(s: string)
    ensures ',' !in FormattedName(s) && '-' !in FormattedName(s) && '(' !in FormattedName(s)
    ensures SingleSpaced(FormattedName(s))
    ensures var d := Depunctuate(CutSuffixes(Strip(Outside(s)), Suffixes));
      Split(FormattedName(s)) == CompanyWords(Split(d))
  {
    NoOpenAfterCut(s);
    LastStagesShape(CutSuffixes(Strip(Outside(s)), Suffixes));
  }
}
