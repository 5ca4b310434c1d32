# vcodeowners core in Dafny

A model of the CODEOWNERS core of vcodeowners (Go), with proofs about it.
The tool reads a GitHub- or GitLab-style CODEOWNERS file into a concrete
syntax tree (CST): one record per line, and a list of anomalies. It can
expand "virtual teams" from a team map into their members. It writes the
CST back as CODEOWNERS text, or as a labeler.yml file.

The modules follow the Go packages:

- `Wrappers` (wrappers.dfy): `Option` and `Result`.
- `GoText` (gotext.dfy): the Go library behaviour the core relies on:
  - `strings.TrimSpace` over Unicode white space;
  - `strings.Split(s, "\n")`;
  - `strconv.Atoi` with 64-bit range;
  - `%d` and `%4d`.
- `Patterns` (patterns.dfy): the regular expressions of
  internal/codeowners/parse.go, as hand-written matchers. Each matcher is
  proved sound and complete against a declarative predicate (`IsBareRule`,
  `IsOwnedRule`, `IsOwnedSection`, …). The proofs also show it picks the
  reading that Go's leftmost-first semantics picks: greedy `[^\s]+`, `\s*`
  and `\s+`. RE2's `\s` is `[\t\n\f\r ]`. `.` excludes the line feed, and
  negated classes include it.
- `Codeowners` (codeowners.dfy): `ParseOwner`, `parseOwnersString`,
  `getOptionalInt`, `parseSectionHeadLine`, `parseRuleLine`, `parseLine`
  and `Parse` (internal/codeowners/parse.go).
- `Anomalies` (anomalies.dfy): the anomaly report
  (internal/codeowners/anomalies.go).
- `Formatter` (format.dfy): `Line.String` and `CST.Format`
  (internal/codeowners/format.go). It also holds round trips from
  formatting back to parsing.
- `Teams` (teams.dfy): the check of a decoded team map, `cookOwner`,
  `uniqOwners` and `Apply` (internal/teams/parse.go).
- `Labeler` (labeler.dfy): `transform`, `getPatternsForTeam` and
  `FormatCSTAsLabelerYML` (internal/things/format_labeler.go). There
  `CodeOwnersLine` has the same fields as `codeowners.Line`, so the model
  uses `Codeowners.Line`.

Modelling choices:

- A Go nil slice is `None`; a non-nil slice is `Some`. `Line.String`
  tests `Owners != nil`, so the difference matters.
- Go loops are methods with loop invariants, each proved equal to a
  specification function. Pure Go functions are Dafny functions.
- Go ranges over maps in an unspecified order. Wherever that order shows
  in the result, the model takes it as an explicit `order` sequence of
  keys.

Behaviour the proofs bring out (code as written):

- In a section whose heading named a valid owner, `parseRuleLine` first
  tries the ownerless expression. That expression lets a `#` end the
  pattern. So `a#b @x` becomes a rule with pattern `a`, no owners and
  comment `b @x` (`Formatter.HashInPatternExample`). Outside such a
  section the same line is a rule with pattern `a#b` and owner `@x`.
- Writing back an ownerless rule with an inline comment adds one space
  before the `#`: `formatInlineComment` always writes " #". Each
  parse-then-format cycle therefore grows the spacing by one
  (`Formatter.FormatOwnerlessRuleRoundTrip`).
- The model follows the code: `parseLine` passes `trimmedLine` to
  `parseRuleLine` (internal/codeowners/parse.go:221), so a rule's `raw` is
  the trimmed line (`Codeowners.ParseLineDispatch`).
- A rule whose last owner name ends in a character that
  `strings.TrimSpace` removes but RE2's `\s` does not match (U+00A0, `\v`,
  U+0085, U+2000 to U+200A), followed by an empty inline comment, does not
  survive a format-then-parse cycle. `a @x` U+00A0 `#` reads owner
  `@x` U+00A0 with no comment. `formatRule` writes `a @x` U+00A0, and
  `parseLine` trims that to `a @x`, which reads owner `@x`
  (`Formatter.TrailingUniSpaceOwner`). Every other parsed rule with owners
  comes back unchanged but for `raw` (`Formatter.ParsedLineRoundTrip`).
- An empty member name is cooked to `@`, which `ParseOwner` calls
  invalid (`Teams.EmptyMemberExample`).

## Model

| member | source | states |
|---|---|---|
| GoText.RunEnd | internal/codeowners/parse.go:10-13 | the end of the longest run of one character class from a position: all characters before it are in the class, the one at it is not |
| GoText.TrimSpace | internal/codeowners/parse.go:194 | empty exactly when the line is all Unicode white space; otherwise the slice from the first to the last non-space character, which starts and ends with non-space |
| GoText.TrimSpaceOfTrimmed | internal/codeowners/parse.go:194 | trimming a string that starts and ends with non-space gives it back |
| GoText.SplitLines | internal/codeowners/parse.go:232 | one piece more than there are line feeds, no piece holds a line feed, and joining the pieces with line feeds gives the content back |
| GoText.SplitLinesCons | internal/codeowners/parse.go:232 | a line without line feed, a line feed and the rest split into that line followed by the pieces of the rest |
| GoText.SplitUnlines | internal/codeowners/parse.go:232 | splitting lines that each end with a line feed gives them back, followed by one empty piece |
| GoText.Atoi | internal/codeowners/parse.go:65 | a number read is within the 64-bit range |
| GoText.DecimalDigits | internal/codeowners/anomalies.go:13 | decimal digits without a leading zero, and they denote the number |
| GoText.FormatIntShape | internal/codeowners/anomalies.go:13 | a minus sign for negative numbers, then digits only |
| GoText.AtoiFormatInt | internal/codeowners/parse.go:65 | Atoi reads back what %d writes, for every 64-bit integer |
| GoText.PadLeftShape | internal/codeowners/anomalies.go:13 | padding to a width never cuts: only spaces precede the number, which ends the field |
| Patterns.MatchCommentExact | internal/codeowners/parse.go:10 | the optional `#comment` ending succeeds exactly on the text of a comment without line feeds |
| Patterns.MatchBareTailExact | internal/codeowners/parse.go:10 | the spaces-and-optional-comment tail of an ownerless rule matches exactly its declarative readings |
| Patterns.MatchNamesAndCommentExact | internal/codeowners/parse.go:11 | owner names are a non-empty run without `#`, then an optional comment, and nothing else matches |
| Patterns.SearchOwnedTailSound | internal/codeowners/parse.go:11 | the backtracking search over the spaces before the owners returns only valid readings |
| Patterns.SearchOwnedTailComplete | internal/codeowners/parse.go:11 | every valid reading is found, or one with a longer run of spaces is returned |
| Patterns.MatchOwnedTailCorrect | internal/codeowners/parse.go:11 | sound, and among all readings the one with the longest (greedy) run of spaces |
| Patterns.SearchBareRuleSound | internal/codeowners/parse.go:10 | the search over pattern lengths returns only valid ownerless-rule readings |
| Patterns.SearchBareRuleComplete | internal/codeowners/parse.go:10 | every valid reading is found, or one with a longer pattern is returned |
| Patterns.MatchBareRuleCorrect | internal/codeowners/parse.go:10 | the ownerless-rule expression matches exactly when a reading exists, and picks the longest pattern as leftmost-first does |
| Patterns.MatchOwnedRuleCorrect | internal/codeowners/parse.go:11 | the rule-with-owners expression matches exactly when a reading exists: the pattern is the whole first word and the spaces are the greedy run |
| Patterns.MatchApproversSound | internal/codeowners/parse.go:12-13 | the optional `[N]` is read only from digits in brackets that are there |
| Patterns.MatchApproversUnique | internal/codeowners/parse.go:12-13 | a present `[N]` is always taken, and an absent one is read as absent |
| Patterns.MatchHeadSound | internal/codeowners/parse.go:12-13 | a section head is read only as `^`, a bracketed name without `]` and the optional approvers, all of which are there |
| Patterns.MatchHeadUnique | internal/codeowners/parse.go:12-13 | a written head is read back as itself when it is not followed by `[` |
| Patterns.MatchBareSectionExact | internal/codeowners/parse.go:12 | the ownerless section expression matches exactly its declarative readings |
| Patterns.MatchOwnedSectionCorrect | internal/codeowners/parse.go:13 | the section-with-owners expression matches exactly when a reading exists, with the head fixed and the greedy run of spaces |
| Patterns.IsEmailExact | internal/codeowners/parse.go:16 | a token is an e-mail exactly when a non-empty run without `@`, an `@` and a non-empty rest without line feeds make it up |
| Patterns.NonEmptySplitOnSpaces | internal/codeowners/parse.go:94-100 | splitting on `\s+` and dropping the empty pieces gives the white-space-separated words |
| Patterns.WordsShape | internal/codeowners/parse.go:94-100 | every word is non-empty and holds no white space |
| Patterns.WordsConcat | internal/codeowners/parse.go:94-100 | the words of two texts joined by white space are the words of each, in order |
| Codeowners.ParseOwnerClassifies | internal/codeowners/parse.go:74-91 | the name is the token; user or group exactly when `@` and at least one more character; else e-mail exactly when it splits as an address; else invalid |
| Codeowners.ParseOwnerUserExample | internal/codeowners/parse.go:74-91 | `@user1` is a user or group, a lone `@` is invalid |
| Codeowners.ParseOwnerEmailExample | internal/codeowners/parse.go:81-86 | `email@address.org` is an e-mail |
| Codeowners.ParseOwnerInvalidExample | internal/codeowners/parse.go:87-90 | `invalid` and `invalid-too@` are invalid |
| Codeowners.ParseOwnersAt | internal/codeowners/parse.go:96-99 | the k-th owner is the classification of the k-th token |
| Codeowners.OwnersOfBlank | internal/codeowners/parse.go:93-102 | white space alone gives a nil owner list |
| Codeowners.OwnersOfNames | internal/codeowners/parse.go:93-102 | a non-nil owner list is non-empty, and every name is non-empty and free of white space |
| Codeowners.ParseOwnersString | internal/codeowners/parse.go:93-102 | the loop yields nil for no words, otherwise one classified owner per word in order |
| Codeowners.GetOptionalInt | internal/codeowners/parse.go:61-72 | 0 for the empty fragment; the value of the digits when it fits 64 bits, else 0; always between 0 and MaxInt |
| Codeowners.AnyValidOwner | internal/codeowners/parse.go:128-136 | true exactly when some owner is not invalid |
| Codeowners.ParseSectionHeadLine | internal/codeowners/parse.go:104-152 | the method computes the record and next state of the section-heading specification |
| Codeowners.SectionHeadLineState | internal/codeowners/parse.go:104-152 | unknown exactly when neither section expression has a reading, leaving the state; otherwise a heading with a non-empty name, approvers at least 0, state moved to its name with valid users exactly when an owner is valid; ownerless headings reset valid users |
| Codeowners.ParseRuleLineCases | internal/codeowners/parse.go:154-191 | unknown exactly when no rule-with-owners reading exists and no ownerless reading is allowed; a rule's pattern is a non-empty prefix without white space; the section is the current one |
| Codeowners.ParseLineDispatch | internal/codeowners/parse.go:193-222 | empty exactly for all-white-space lines, ignorable comment exactly for `#!`, comment for other `#`; raw is the trimmed line on the rule path and the line otherwise; only headings move the state |
| Codeowners.ParseLineState | internal/codeowners/parse.go:193-222 | a heading moves the state to its name and validity; any other record keeps it |
| Codeowners.ParseLines | internal/codeowners/parse.go:232-236 | one record per input line |
| Codeowners.ParseLinesState | internal/codeowners/parse.go:229-236 | the state after the loop is the one the last section heading set, or the initial one |
| Codeowners.ParseLinesNumbered | internal/codeowners/parse.go:233-234 | the k-th record has line number k+1 |
| Codeowners.ParseLinesOwners | internal/codeowners/parse.go:232-236 | no record holds an empty non-nil owner list |
| Codeowners.ParseLinesRecord | internal/codeowners/parse.go:232-236 | the k-th record is the k-th line parsed in the state the records before it leave |
| Codeowners.RuleSectionIsLastHeading | internal/codeowners/parse.go:154-191 | a rule records the name of the last section heading above it |
| Codeowners.InvalidOwnerAnomaliesEmpty | internal/codeowners/parse.go:248-260 | no anomaly exactly when no owner is invalid |
| Codeowners.AnomaliesOfEmpty | internal/codeowners/parse.go:238-261 | no anomalies exactly when no record is unknown or holds an invalid owner |
| Codeowners.InvalidOwnerAnomaliesOrigin | internal/codeowners/parse.go:248-260 | each anomaly names an invalid owner of the record, with its line number and text |
| Codeowners.AnomaliesOfOrigin | internal/codeowners/parse.go:238-261 | every anomaly is explained by a record: unknown, or holding the invalid owner it names |
| Codeowners.AnomaliesOfOrdered | internal/codeowners/parse.go:238-261 | anomalies come in line-number order |
| Codeowners.InvalidOwnerAnomaliesExact | internal/codeowners/parse.go:248-260 | the anomalies of an owner list are exactly one per invalid owner, each once, in the order of the owners |
| Codeowners.InvalidOwnerAnomaliesComplete | internal/codeowners/parse.go:248-260 | every invalid owner gives its `Invalid user` anomaly |
| Codeowners.AnomaliesOfAppend | internal/codeowners/parse.go:238-261 | the anomalies of two runs of records are those of the first, then those of the second |
| Codeowners.AnomaliesOfSplit | internal/codeowners/parse.go:238-261 | each record's anomalies form one block, between those of the records before and after it |
| Codeowners.AnomaliesOfComplete | internal/codeowners/parse.go:238-261 | every unknown record gives its `Unknown line type` anomaly, and every invalid owner of a rule or section heading its `Invalid user` anomaly |
| Codeowners.ParseRecords | internal/codeowners/parse.go:232-236 | the loop builds the records of the document specification |
| Codeowners.CollectAnomalies | internal/codeowners/parse.go:238-261 | the nested loops build the anomalies of the specification |
| Codeowners.Parse | internal/codeowners/parse.go:226-264 | records of the split content, and their anomalies |
| Codeowners.ParseEmpty | internal/codeowners/parse.go:226-264 | the empty file is one empty record and no anomaly |
| Anomalies.LineNoFieldWidth | internal/codeowners/anomalies.go:12-14 | the number field is four wide for short numbers and never cut for long ones |
| Anomalies.LineNoFieldShape | internal/codeowners/anomalies.go:12-14 | the field is spaces then the number, with no line feed |
| Anomalies.AnomalyStringLineNo | internal/codeowners/anomalies.go:12-14 | the line number can be read back from its field after "Line " |
| Anomalies.AnomalyStringOneLine | internal/codeowners/anomalies.go:12-14 | an anomaly's line holds no line feed when its reason and text hold none |
| Anomalies.HeaderOneLine | internal/codeowners/anomalies.go:20 | the header holds no line feed |
| Anomalies.ItemLinesLength | internal/codeowners/anomalies.go:21-23 | one report line per anomaly |
| Anomalies.ItemLinesAt | internal/codeowners/anomalies.go:21-23 | the k-th report line is the k-th anomaly's |
| Anomalies.ItemLinesOneLine | internal/codeowners/anomalies.go:21-23 | no report line holds a line feed when no reason or text does |
| Anomalies.Report | internal/codeowners/anomalies.go:19-25 | the header, then each anomaly's line indented by two spaces, each ending with a line feed |
| Anomalies.ReportEmpty | internal/codeowners/anomalies.go:19-25 | without anomalies the report is the header line alone |
| Anomalies.ReportLines | internal/codeowners/anomalies.go:19-25 | the report splits into the header, the anomalies' lines in order and an empty last piece |
| Anomalies.ReportOfOne | internal/codeowners/anomalies.go:19-24 | the report of one anomaly is the header line, then that anomaly's line, each ended by a line feed |
| Anomalies.UnknownLineExample | internal/codeowners/anomalies_test.go:12-25 | the whole report of the test, with line 42 right-aligned as `Line   42` |
| Anomalies.LineNoField42 | internal/codeowners/anomalies.go:13 | 42 is padded to "  42" |
| Formatter.FormatOwners | internal/codeowners/format.go:7-17 | the loop writes the names separated by single spaces |
| Formatter.JoinNamesWords | internal/codeowners/format.go:7-17 | splitting the written owners on white space gives back the names |
| Formatter.JoinNamesShape | internal/codeowners/format.go:7-17 | written owner tokens start with non-space and hold no `#` |
| Formatter.ParseOwnersNames | internal/codeowners/format.go:7-17 | classifying the names of parsed owners gives the owners back |
| Formatter.OwnersOfJoinNames | internal/codeowners/format.go:7-17 | parsing the written owners, with or without a trailing space, gives the owners back |
| Formatter.Format | internal/codeowners/format.go:66-74 | the header comment, then each record's line in order |
| Formatter.WrittenTailReads | internal/codeowners/format.go:40-42 | the written spaces, owners and comment read back with those spaces, and no reading has longer spaces |
| Formatter.FormatRuleMatches | internal/codeowners/format.go:40-42 | the rule-with-owners expression reads a written rule as its pattern, spaces, owners and comment |
| Formatter.FormatRuleNotBare | internal/codeowners/format.go:40-42 | a written rule with owners and a pattern without `#` never matches the ownerless expression |
| Formatter.FormatRuleRoundTrip | internal/codeowners/format.go:40-42 | a written rule with owners parses back with the same pattern, spaces, owners and comment |
| Formatter.HashInPatternExample | internal/codeowners/parse.go:156-168 | in a section with valid users `a#b @x` parses as pattern `a`, no owners, comment `b @x` |
| Formatter.FormatOwnerlessRuleRoundTrip | internal/codeowners/format.go:19-24 | an ownerless rule parses back with the same pattern, owners and comment, and one extra space when it has a comment |
| Formatter.FormatMinApproversReads | internal/codeowners/format.go:33-38 | written approvers are read back as the count when positive and as absent (0) otherwise |
| Formatter.FormatSectionHead | internal/codeowners/format.go:44-46 | a written heading starts with its head, which the head expression reads back as itself |
| Formatter.FormatSectionNotBare | internal/codeowners/format.go:44-46 | a written heading with owners never matches the ownerless section expression |
| Formatter.FormatSectionMatches | internal/codeowners/format.go:44-46 | the section-with-owners expression reads back the head, spaces, owners and comment |
| Formatter.FormatSectionRoundTrip | internal/codeowners/format.go:44-46 | a written heading with owners parses back with the same fields (approvers below 1 read as 0) and sets the state to its name and validity |
| Formatter.ParsedOwnersCanonical | internal/codeowners/parse.go:93-102 | parsed owners are tokens without white space or `#`, equal to the classification of their names |
| Formatter.ParsedRuleRoundTrip | internal/codeowners/format.go:40-42 | against `parseRuleLine` on already trimmed text: format then parse is the identity (but for raw) on every parsed rule with owners, except a `#` pattern in a section with valid users |
| Formatter.ParsedLineRoundTrip | internal/codeowners/parse.go:193-221 | against `parseLine`, trimming included: format then parse is the identity (but for raw) on every rule with owners read from a line, except a `#` pattern in a section with valid users and an empty comment after a last owner ending in a Unicode space |
| Formatter.TrailingUniSpaceOwner | internal/codeowners/format.go:40-42 | a last owner ending in a Unicode space that `\s` does not match, before an empty comment, loses that character through format then parse |
| Formatter.ParsedSectionRoundTrip | internal/codeowners/format.go:44-46 | format then parse is the identity (but for raw) on every parsed heading with owners, including the next state |
| Formatter.RenderEchoed | internal/codeowners/format.go:48-64 | records written from raw give their raw lines, each with a line feed |
| Formatter.RenderEmpty | internal/codeowners/format.go:48-64 | the output is empty exactly when every record is an ignorable comment |
| Formatter.RenderEchoedLines | internal/codeowners/format.go:48-64 | a document without rules or headings with owners is written back line by line |
| Formatter.ParseThenFormatEchoes | internal/codeowners/format.go:66-74 | for such a document, parsing then formatting gives the content plus a line feed |
| Formatter.ParsedRaw | internal/codeowners/parse.go:193-222 | off the rule path, a record's raw is its line |
| Formatter.FormatEmpty | internal/codeowners/format.go:66-74 | an empty CST is written as the header comment alone |
| Teams.Validate | internal/teams/parse.go:21-27 | succeeds with the map exactly when no member starts with `@`; otherwise reports the first such member in visiting order, with its team and index |
| Teams.ErrorMessageExample | internal/teams/parse_test.go:31-35 | the message for member 1 of team1 |
| Teams.CookOwnerKinds | internal/teams/parse.go:31-43 | never invalid; e-mail exactly when the member reads as one; otherwise a user or group, `@` prefixed unless already one |
| Teams.CookOwnerReads | internal/teams/parse.go:31-43 | a cooked member is what parsing its name gives |
| Teams.CookOwnerUserExample | internal/teams/parse.go:31-43 | `user1` becomes `@user1` |
| Teams.CookOwnerEmailExample | internal/teams/parse.go:31-43 | an e-mail member is kept |
| Teams.EmptyMemberExample | internal/teams/parse.go:31-43 | the empty member becomes `@`, which parsing calls invalid |
| Teams.UniqOwners | internal/teams/parse.go:45-56 | nil for no owners, otherwise the owners without repeated names |
| Teams.UniqShape | internal/teams/parse.go:45-56 | kept names are pairwise different, kept owners come from the input, and every input name is kept |
| Teams.UniqFirst | internal/teams/parse.go:45-56 | each kept owner is the first input owner with its name |
| Teams.UniqSubsequence | internal/teams/parse.go:45-56 | the kept owners keep their input order |
| Teams.LessIrreflexive | internal/teams/parse.go:73-75 | no name sorts before itself |
| Teams.LessTransitive | internal/teams/parse.go:73-75 | the name order is transitive |
| Teams.LessTotal | internal/teams/parse.go:73-75 | of two different names one sorts first |
| Teams.LessAsymmetric | internal/teams/parse.go:73-75 | two names never sort before each other |
| Teams.InsertPermutes | internal/teams/parse.go:73-75 | insertion adds the owner and loses none |
| Teams.InsertSorted | internal/teams/parse.go:73-75 | insertion keeps a list sorted by name |
| Teams.SortByNameCorrect | internal/teams/parse.go:73-75 | the result is sorted by name and a permutation of the input |
| Teams.UniqOfSorted | internal/teams/parse.go:73-76 | dropping repeated names from a sorted list leaves it strictly ascending |
| Teams.StrictlyAscendingUnique | internal/teams/parse.go:73-76 | two strictly ascending lists with the same owners are equal |
| Teams.SortOrderIrrelevant | internal/teams/parse.go:73-76 | when names decide owners, every by-name order of the same owners gives the same result after dropping repeats |
| Teams.ExpandOwners | internal/teams/parse.go:63-72 | the loops replace each team by its cooked members and keep every other owner, in order |
| Teams.CookedMembers | internal/teams/parse.go:66-68 | the cooked list holds exactly the cooked members |
| Teams.ExpandMembers | internal/teams/parse.go:63-72 | the expansion holds exactly each owner's contribution |
| Teams.ExpandOwnerCases | internal/teams/parse.go:64-70 | an owner stays unless it is a user or group naming a team; a team gives exactly its cooked members, none invalid |
| Teams.ExpandEmptyMap | internal/teams/parse.go:63-72 | with no teams nothing is expanded |
| Teams.ExpandCanonical | internal/teams/parse.go:63-72 | the expansion of parsed owners, with non-empty one-line member names, holds only owners decided by their names |
| Teams.Apply | internal/teams/parse.go:58-82 | one record per input record, each rule and heading with new owners, everything else unchanged |
| Teams.ApplyLineFields | internal/teams/parse.go:58-82 | only the owners of rules and headings change |
| Teams.ApplyOwnersShape | internal/teams/parse.go:62-76 | new owners are strictly ascending by name, drawn from the expansion, and keep each of its names; nil exactly when the expansion is empty, so an ownerless record stays ownerless |
| Teams.ApplyEmptyMap | internal/teams/parse.go:58-82 | with an empty map the owners are only sorted and deduplicated: all come from the record and every name is kept |
| Teams.ApplyAnySortOrder | internal/teams/parse.go:62-76 | for parsed owners and non-empty one-line members, any by-name order the unstable sort produces gives the same owners |
| Labeler.TransformCases | internal/things/format_labeler.go:10-44 | `*` gives `"**"` with quotes; any other pattern starting with `*` is quoted; a trailing slash gets `**` after any quoting; any other pattern is kept |
| Labeler.TransformImage | internal/things/format_labeler.go:10-44 | a rewritten glob never starts with `*` or ends with `/`, and those are exactly the patterns kept unchanged |
| Labeler.TransformIdempotent | internal/things/format_labeler.go:10-44 | rewriting a rewritten glob changes nothing |
| Labeler.TransformExamples | internal/things/format_labeler.go:13-38 | `*` and `**` give the same glob, as do `src/` and `src/**`; `*.go` is quoted |
| Labeler.TransformNoLineFeed | internal/things/format_labeler.go:10-44 | rewriting adds no line feed |
| Labeler.GetPatternsForTeam | internal/things/format_labeler.go:47-61 | the loops collect the team's rewritten patterns in record order |
| Labeler.OwnerPatternsMembers | internal/things/format_labeler.go:52-56 | a rule gives its pattern exactly when some owner is named "@" + team |
| Labeler.LinePatternsMembers | internal/things/format_labeler.go:51-57 | only rules owned by the team contribute, and only their rewritten pattern |
| Labeler.PatternsForTeamMembers | internal/things/format_labeler.go:47-61 | the patterns are exactly the rewritten patterns of rules naming "@" + team |
| Labeler.PatternsForTeamEmpty | internal/things/format_labeler.go:47-61 | no patterns exactly when no rule names "@" + team |
| Labeler.PatternsForTeamAppend | internal/things/format_labeler.go:50-58 | patterns follow record order |
| Labeler.WriteBlock | internal/things/format_labeler.go:71-76 | a block is the team with a colon, the changed-files line, one item per pattern and an empty line |
| Labeler.FormatLabeler | internal/things/format_labeler.go:65-80 | the header, then one block per team with patterns in visiting order; the header alone for an empty map |
| Labeler.TeamBlocksMembers | internal/things/format_labeler.go:68-78 | exactly the teams with at least one pattern get a block, holding their patterns |
| Labeler.ReadItemsOf | internal/things/format_labeler.go:73-75 | item lines read back as their patterns |
| Labeler.ReadBlockOf | internal/things/format_labeler.go:71-76 | a written block reads back as its team and patterns |
| Labeler.ReadBlocksOf | internal/things/format_labeler.go:68-78 | the written blocks read back as themselves, whatever the team and pattern texts |
| Labeler.BlocksOneLine | internal/things/format_labeler.go:65-80 | no output line holds a line feed when no team or pattern does |
| Labeler.LabelerYmlReadsBack | internal/things/format_labeler.go:65-80 | the output splits into the header's lines and the blocks' lines, and those read back as each team with patterns, in visiting order |

## Left out

- JSON: decoding a team map and writing the CST as JSON are not modelled. `Teams.Validate` takes the decoded map. A decode error is not modelled.
- A team whose JSON value is `null` decodes to a nil member list. `Apply` does not expand such a team. In the model every key has a (non-nil) list.
- Teams.Apply: `slices.SortFunc` is not stable. The model sorts with a stable insertion sort, which is one of the orders the Go sort may produce. `Teams.ApplyAnySortOrder` shows the order does not matter for parsed owners and non-empty one-line member names.
- Teams.Less: `cmp.Compare` orders strings by bytes. The model orders by code points. The two orders agree on valid UTF-8.
- Strings are sequences of code points. Invalid UTF-8 and byte-level offsets are not modelled.
- Go map iteration order is not modelled. `Teams.Validate` and `Labeler.FormatLabeler` take the visiting order as a parameter listing every key.
- Formatter.Format and Labeler.FormatLabeler: the Go functions also return an error, which is always nil. It is not modelled.
- Codeowners.Parse: Go returns a nil anomaly list when there are none. The model returns an empty sequence.
- The command-line interface, file reading and writing, and the header texts are not modelled.
- The older copies of the same logic are not part of this model: `parse.go`, `format.go` and `team_map.go` at the top level, and `internal/things/parse_codeowners.go`.
