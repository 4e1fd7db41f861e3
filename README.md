# CleanserV2 text normalisers in Dafny

CleanserV2 cleans a spreadsheet of contacts through two normalisers:

- `format_job_title` rewrites a job title by an ordered list of rules:
  - a "Director" title has its CISO mentions moved to the end, and a "Head ... IT ..." tail collapsed;
  - a CISO title becomes "CIO and CISO" or "CISO";
  - a "Head" + "IT" title becomes "Head of IT Security" or "Head of IT";
  - every other title is re-capitalised word by word.
- `format_company_name` runs a four-stage pipeline:
  - drop parenthesised parts, nested ones included;
  - cut the name at six legal suffixes;
  - delete commas and hyphens;
  - capitalise the words that are not already all upper case.

This project models both normalisers and proves what each rule and stage promises.

Modules:

- `Cells`: a spreadsheet value. It is text, a number or blank, so the `isinstance(value, str)` guard can be modelled.
- `PyStr`: the Python `str` operations the normalisers use, with ASCII semantics: `in`, `replace`, `strip`, `split()`, `' '.join`, `lower`, `capitalize`, `isupper` and `split(sep)[0]`.
- `HeadPattern`: the two fixed `re.sub` calls of the Director rule.
  - `MatchesAt` is the regular-expression meaning of each pattern.
  - `Substitute` computes the substitution line by line. A `.` never crosses a newline, so the trailing `.*` of a match runs to the end of its line.
  - `LineMatchLeftmost` proves that `LineMatch` finds the leftmost match, and `SubstituteLeftmost` that `Substitute` replaces from that match on.
- `JobTitle`: `format_job_title` as functions. `Title` holds the rules in their order; one lemma per rule states what it gives.
- `CompanyName`: `format_company_name`.
  - The parenthesis loop and the suffix loop are methods, `StripParentheses` and `TruncateSuffixes`.
  - Each is proved equal to a left-fold specification function, `Outside` and `CutSuffixes`, whose properties are lemmas.
  - `FormatCompanyName` runs the stages and is proved equal to `FormattedName`.
- `DocumentedCases`: concrete inputs worked through the model.

Three consequences of the code are worth knowing, since a reader might expect otherwise:

- The "Head" guard of the Head rule (CleanserV2.py:34) is case-sensitive. So "head of cyber security" is only re-capitalised, to "Head of Cyber Security" (`DocumentedCases.HeadOfCyberSecurity`).
- A Director title does not always end up with "CISO" and without the long form "Chief Information Security Officer":
  - The Head substitution can swallow the " CISO" that the CISO step appended (`DocumentedCases.DirectorLosesCiso`).
  - Deleting "(CISO)" can join the two halves of the long form after the long form was deleted (`DocumentedCases.DirectorKeepsLongForm`).
- The title formatter as a whole is not idempotent. "head it" gives "Head IT", which then gives "Head of IT" (`DocumentedCases.HeadItNotIdempotent`). Only the capitalisation pass is idempotent (`JobTitle.CapitalizeTitleIdempotent`).

## Model

| member | source | states |
|---|---|---|
| JobTitle.FormatJobTitle | CleanserV2.py:5-48 | a value that is not text is returned unchanged; text gives text |
| JobTitle.CisoTitle | CleanserV2.py:27-31 | without "Director", a title containing "CISO" or the long form gives exactly "CIO and CISO" if it contains "CIO" and exactly "CISO" otherwise |
| JobTitle.HeadItTitle | CleanserV2.py:34-38 | without "Director" or a CISO mention, a title containing "Head" and "IT" or "Information Technology" gives exactly "Head of IT Security" when its lower-case form contains "cyber" or "security", and exactly "Head of IT" otherwise |
| JobTitle.CisoRewriteShape | CleanserV2.py:11-16 | the CISO step of the Director rule gives the trimmed rest of the title followed by " CISO", or exactly "CISO" when nothing is left |
| JobTitle.DirectorWithoutHeadRewrite | CleanserV2.py:19-24 | when the Head guard fails on the CISO step's result, or its pattern matches nowhere, the Director rule returns that result, with its " CISO" ending |
| JobTitle.DirectorUntouched | CleanserV2.py:9-24 | a Director title that meets neither step's guard is returned character for character |
| JobTitle.DirectorHeadRewrite | CleanserV2.py:19-24 | on a one-line title, when the Head step fires, the result is the CISO step's output up to the leftmost match, followed by the pattern's replacement |
| JobTitle.DefaultTitle | CleanserV2.py:40-46 | a title meeting no guard goes through the capitalisation pass; the result is single-spaced and a fixed point of the pass |
| JobTitle.CapitalizeTitleShape | CleanserV2.py:41-46 | the pass gives single-spaced output with as many words as the input, each the same ignoring case; small words are lower case, "it" in any case is "IT", every other word is capitalised |
| JobTitle.CapitalizeTitleIdempotent | CleanserV2.py:41-46 | the pass applied to its own output changes nothing |
| JobTitle.CapitalizeTitleWords | CleanserV2.py:42-46 | the two join/split passes act word by word: the output's words are the per-word rewrite of the input's words |
| JobTitle.TitleWordShape | CleanserV2.py:42-46 | one word through both passes stays a word with the same letters ignoring case, takes the small-word, "IT" or capitalised form, and is not changed again |
| JobTitle.TitleWordFormatted | CleanserV2.py:42-46 | every word the pass produces is in the form the rule prescribes |
| HeadPattern.LineMatchLeftmost | CleanserV2.py:21-23 | on one line, the computed match start is a position where the pattern matches with none before it, and no start means no match anywhere |
| HeadPattern.SubstituteNoMatch | CleanserV2.py:21-23 | a title where the pattern matches nowhere is left unchanged by the substitution |
| HeadPattern.SubstituteLeftmost | CleanserV2.py:21-23 | on a one-line title with leftmost match at `i`, the substitution keeps the first `i` characters and appends the replacement |
| HeadPattern.MatchInSlice | CleanserV2.py:21-23 | a match inside one line of a title is a match in the whole title |
| CompanyName.StripParentheses | CleanserV2.py:54-62 | the stack loop accumulates exactly `Outside(name)`: the characters read with no '(' open, other than '(' |
| CompanyName.OutsideHasNoOpen | CleanserV2.py:54-62 | no '(' survives the parenthesis stage |
| CompanyName.OutsideIsKeptSubsequence | CleanserV2.py:54-62 | the stage's output is the subsequence of the input at strictly increasing positions, and a position is among them exactly when it is read at depth 0 and is not '(' |
| CompanyName.UnmatchedCloseKept | CleanserV2.py:59-62 | a ')' read with nothing open is copied through |
| CompanyName.OutsideWithoutOpen | CleanserV2.py:54-62 | a name without '(' comes out of the stage unchanged and leaves nothing open |
| CompanyName.OutsideConcat | CleanserV2.py:54-62 | once every '(' read is closed, the rest of the name is stripped independently of what came before |
| CompanyName.GroupDropped | CleanserV2.py:54-62 | a parenthesised part without nested parentheses is dropped whole and leaves nothing open |
| CompanyName.GroupRemoved | CleanserV2.py:54-62 | such a part between two texts without '(' is removed and both texts are kept |
| CompanyName.CutSuffixesSpec | CleanserV2.py:66-67 | cutting at each suffix in turn gives a prefix of the name containing none of them, and a name containing none of them is left alone; each step leaves its input alone when its suffix is absent, and otherwise cuts it exactly at the first occurrence of that suffix |
| CompanyName.TruncateSuffixes | CleanserV2.py:66-67 | the suffix loop computes `CutSuffixes(name, Suffixes)`: a prefix of its input containing none of "Inc", "Corporation", "Corp", "LLC", "Ltd", "Limited", and the input itself when it contains none of them |
| CompanyName.FormatCompanyName | CleanserV2.py:50-74 | a value that is not text is returned unchanged; text gives `FormattedName` of it, the stages composed in order |
| CompanyName.DepunctuateFilters | CleanserV2.py:70 | stage 3 is the strip of the name with every ',' and then every '-' filtered out, all other characters kept in order |
| CompanyName.DepunctuateChars | CleanserV2.py:70 | no ',' or '-' survives stage 3, and no '(' appears that was absent before |
| CompanyName.CapitalizeCompanyShape | CleanserV2.py:73 | the last stage gives single-spaced output whose words are the input's words, all-upper-case ones kept and the others capitalised |
| CompanyName.CapitalizeCompanyChars | CleanserV2.py:73 | the last stage adds no character that is neither a letter nor a space |
| CompanyName.FormattedNameShape | CleanserV2.py:63-73 | the formatted name contains no ',', '-' or '(', is single-spaced, and its words are those after stage 3 with all-upper-case words kept and the rest capitalised |
| PyStr.BeforeSpec | CleanserV2.py:67 | `s.split(p)[0]` is a prefix of `s` without `p`; when `p` occurs it ends exactly where the first occurrence of `p` starts, and otherwise it is `s` itself |
| PyStr.SplitJoin | CleanserV2.py:42-46 | splitting a space-join of words gives the words back |
| PyStr.JoinSingleSpaced | CleanserV2.py:42-46 | a space-join of words has no outer whitespace and single spaces between words |
| PyStr.Strip | CleanserV2.py:15-16 | the stripped text has no whitespace at either end, adds no character, and is the text itself when it has none there |
| PyStr.StripSlice | CleanserV2.py:15-16 | the stripped text is a slice of the text, and everything outside the slice is whitespace |
| PyStr.ReplaceOneChar | CleanserV2.py:70 | deleting a one-character pattern with `replace` keeps every other character, in order |
| PyStr.WithoutCounts | CleanserV2.py:70 | filtering one character out of a text keeps every other character exactly as often as it occurs |
| PyStr.ReplaceSkipsPrefix | CleanserV2.py:12-14 | `replace` copies a prefix lacking the pattern's first character unchanged |
| PyStr.CapitalizeIdempotent | CleanserV2.py:42 | `capitalize` applied twice is `capitalize` once |
| PyStr.LowerOfCapitalize | CleanserV2.py:42 | `capitalize` changes nothing but case |
| DocumentedCases.IbmCorp | CleanserV2.py:50-74 | "IBM Corp" is formatted to "IBM": the suffix goes and the all-upper-case word stays |
| DocumentedCases.AcmeHoldings | CleanserV2.py:50-74 | "Acme (Holdings) Inc." is formatted to "Acme" |
| DocumentedCases.HeadOfCyberSecurity | CleanserV2.py:33-46 | "head of cyber security" gives "Head of Cyber Security": the case-sensitive "Head" guard does not fire |
| DocumentedCases.VpOfSales | CleanserV2.py:40-46 | "vp of sales" gives "Vp of Sales" |
| DocumentedCases.HeadOfIt | CleanserV2.py:40-46 | "head of it" gives "Head of IT" |
| DocumentedCases.Ciso | CleanserV2.py:27-31 | "CISO" gives "CISO" |
| DocumentedCases.CioAndCiso | CleanserV2.py:27-31 | "CIO and CISO person" gives "CIO and CISO" |
| DocumentedCases.CisoAlreadyLast | CleanserV2.py:11-16 | a trimmed text without 'C', '(' or 'f', followed by " CISO", comes out of the CISO step unchanged |
| DocumentedCases.HeadItNotIdempotent | CleanserV2.py:33-46 | "head it" gives "Head IT", and "Head IT" gives "Head of IT" |
| DocumentedCases.DirectorKeepsLongForm | CleanserV2.py:9-24 | "Director Chief Information (CISO)Security Officer" gives "Director Chief Information Security Officer CISO", which holds the long form |
| DocumentedCases.DirectorLosesCiso | CleanserV2.py:9-24 | "Director Head IT Security CISO" gives "Director Head of IT Security": the Head substitution removes the " CISO" the CISO step kept |

## Left out

- `process_excel` (CleanserV2.py:76-102) is not modelled. It is pandas file reading and writing, column selection and `print`, and only applies the two normalisers to each cell.
- The module-level script (CleanserV2.py:105-108) is not modelled. It is a fixed file name and a call to `process_excel`.
- Non-ASCII text is not modelled:
  - Case mapping, whitespace and `isupper` follow ASCII only. Python's full Unicode tables also treat characters such as '\xa0' or ' ' as whitespace and case-map letters outside ASCII.
  - The Unicode case equivalences of `re.IGNORECASE`, such as the Kelvin sign matching 'k', are also not modelled.
- Spreadsheet cell values other than text, such as floats, NaN and dates, are abstracted to `Number` and `Blank`. The normalisers only tell text from non-text.
- HeadPattern.Substitute: the model computes where a match starts and replaces from there to the end of the line. It does not model which characters the lazy `.*?` parts and the `(Cyber|Security)` group cover, because the replacement does not use them.
- HeadPattern.LineMatchLeftmost, JobTitle.DirectorHeadRewrite: the leftmost-match statement is proved for one-line titles. Substitution on titles with newlines is modelled line by line, but only the no-match case (`SubstituteNoMatch`) is proved for them.
- PyStr.Replace and PyStr.Before require a non-empty pattern. Python's behaviour for an empty pattern is not modelled: `replace` inserts between characters and `split` raises an error. The normalisers only pass non-empty constants.
- No lemma states that the Director rule always keeps "CISO", because it does not (`DocumentedCases.DirectorLosesCiso`).
- No lemma states that the Director rule never keeps "Chief Information Security Officer", because it can (`DocumentedCases.DirectorKeepsLongForm`).
- No lemma states that `format_job_title` is idempotent, because it is not (`DocumentedCases.HeadItNotIdempotent`).
