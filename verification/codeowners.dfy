/** The CODEOWNERS parser of internal/codeowners/parse.go: content is split
    into lines, each line is classified (empty, comment, ignorable comment,
    section heading, rule or unknown) with a small state threaded from line
    to line, and a second pass lists the anomalies. */
module Codeowners {
  import opened Wrappers
  import opened GoText
  import opened Patterns
  import opened Anomalies

  /** "user-or-group", "e-mail" or "invalid". */
  datatype OwnerKind = UserOrGroup | EMail | Invalid

  datatype Owner = Owner(kind: OwnerKind, name: string)

  /** "rule", "section-heading", "comment", "ignorable-comment", "empty", "unknown". */
  datatype LineKind = Rule | SectionHeading | Comment | IgnorableComment | Empty | Unknown

  /** A record of the concrete syntax tree. Fields a kind does not use keep
      their zero value; `owners` is None where the Go slice is nil. */
  datatype Line = Line(
    kind: LineKind,
    lineNo: int,
    raw: string,
    rulePattern: string,
    ruleSection: string,
    sectionOptional: bool,
    sectionName: string,
    sectionMinApprovers: int,
    spaces: string,
    owners: Option<seq<Owner>>,
    inlineComment: string)

  /** The section the parser is in, and whether its heading named a valid owner. */
  datatype ParseState = ParseState(currentSection: string, currentSectionHasValidUsers: bool)

  const InitialState: ParseState := ParseState("", false)

  /** A record with only its kind, number and text set. */
  function Plain(kind: LineKind, lineNo: int, raw: string): Line {
    Line(kind, lineNo, raw, "", "", false, "", 0, "", None, "")
  }

  // ---------------------------------------------------------------------
  // Owners

  /** ParseOwner: classifies a token; the name is the token itself. */
  function ParseOwner(token: string): Owner {
    if IsUserOrGroup(token) then Owner(UserOrGroup, token)
    else if IsEmail(token) then Owner(EMail, token)
    else Owner(Invalid, token)
  }

  /** A token is a user or group when it is `@` and at least one more
      character; otherwise an e-mail when it has a non-empty prefix without
      `@`, an `@` and at least one more character; otherwise it is invalid.
      Line feeds are never part of a valid token. */
  lemma ParseOwnerClassifies(token: string)
    ensures ParseOwner(token).name == token
    ensures ParseOwner(token).kind == UserOrGroup <==> IsUserOrGroup(token)
    ensures ParseOwner(token).kind == EMail <==> !IsUserOrGroup(token) && exists i :: EmailSplitAt(token, i)
    ensures ParseOwner(token).kind == Invalid <==> !IsUserOrGroup(token) && !exists i :: EmailSplitAt(token, i)
  {
    IsEmailExact(token);
  }

  /** The owner tokens of parse_codeowners_test.go: "@user1" is a user or
      group, "email@address.org" an e-mail, "invalid" and "invalid-too@"
      are invalid; so is a lone "@". */
  lemma ParseOwnerUserExample()
    ensures ParseOwner("@user1").kind == UserOrGroup
    ensures ParseOwner("@").kind == Invalid
  {
    assert "@user1"[1..] == "user1";
    assert RunEnd("@", 0, NoAt) == 0;
  }

  lemma ParseOwnerEmailExample()
    ensures ParseOwner("email@address.org").kind == EMail
  {
    var t := "email@address.org";
    RunEndUnique(t, 0, 5, NoAt);
    assert t[6..] == "address.org";
  }

  lemma ParseOwnerInvalidExample()
    ensures ParseOwner("invalid").kind == Invalid
    ensures ParseOwner("invalid-too@").kind == Invalid
  {
    RunEndUnique("invalid", 0, 7, NoAt);
    RunEndUnique("invalid-too@", 0, 11, NoAt);
  }

  /** One owner per token, in order. */
  function ParseOwners(tokens: seq<string>): (owners: seq<Owner>)
    ensures |owners| == |tokens|
  {
    if tokens == [] then []
    else ParseOwners(tokens[..|tokens| - 1]) + [ParseOwner(tokens[|tokens| - 1])]
  }

  /** The `k`th owner is the `k`th token's. */
  lemma {:induction false} ParseOwnersAt(tokens: seq<string>, k: nat)
    requires k < |tokens|
    ensures ParseOwners(tokens)[k] == ParseOwner(tokens[k])
  {
    var init := tokens[..|tokens| - 1];
    if init != [] {
      ParseOwnersAt(init, if k < |init| then k else 0);
    }
    if k < |init| {
      assert init[k] == tokens[k];
    }
  }

  /** parseOwnersString: one owner per white-space separated token, in order;
      None (a nil slice) when there is no token. */
  function OwnersOf(ownersString: string): Option<seq<Owner>> {
    var tokens := Words(ownersString);
    if tokens == [] then None else Some(ParseOwners(tokens))
  }

  /** White space alone gives no owners. */
  lemma OwnersOfBlank(ownersString: string)
    requires AllOf(ownersString, Space)
    ensures OwnersOf(ownersString) == None
  {
    WordsOfSpaces(ownersString, []);
    assert ownersString + [] == ownersString;
  }

  /** Owner names are non-empty and free of RE2 white space. */
  lemma OwnersOfNames(ownersString: string)
    ensures OwnersOf(ownersString).Some? ==> OwnersOf(ownersString).value != []
    ensures OwnersOf(ownersString).Some? ==>
              forall k :: 0 <= k < |OwnersOf(ownersString).value| ==>
                OwnersOf(ownersString).value[k].name != [] && AllOf(OwnersOf(ownersString).value[k].name, NonSpace)
  {
    var tokens := Words(ownersString);
    WordsShape(ownersString);
    forall k | 0 <= k < |tokens| ensures ParseOwners(tokens)[k].name == tokens[k] {
      ParseOwnersAt(tokens, k);
    }
    if tokens != [] {
      ParseOwnersAt(tokens, 0);
    }
  }

  lemma ParseOwnersSnoc(tokens: seq<string>, t: string)
    ensures ParseOwners(tokens + [t]) == ParseOwners(tokens) + [ParseOwner(t)]
  {
    assert (tokens + [t])[..|tokens|] == tokens;
  }

  /** parseOwnersString, splitting with `\s+` and skipping the empty pieces. */
  method ParseOwnersString(ownersString: string) returns (owners: Option<seq<Owner>>)
    ensures owners == OwnersOf(ownersString)
  {
    var pieces := SplitOnSpaces(ownersString);
    owners := None;
    var i := 0;
    while i < |pieces|
      invariant 0 <= i <= |pieces|
      invariant owners == (if NonEmpty(pieces[..i]) == [] then None else Some(ParseOwners(NonEmpty(pieces[..i]))))
    {
      assert pieces[..i + 1] == pieces[..i] + [pieces[i]];
      NonEmptySnoc(pieces[..i], pieces[i]);
      if pieces[i] != [] {
        var before := NonEmpty(pieces[..i]);
        assert NonEmpty(pieces[..i + 1]) == before + [pieces[i]];
        ParseOwnersSnoc(before, pieces[i]);
        assert ParseOwners(before) == owners.GetOr([]) by {
          if before == [] {
            assert ParseOwners(before) == [];
          }
        }
        owners := Some(owners.GetOr([]) + [ParseOwner(pieces[i])]);
        assert owners == Some(ParseOwners(NonEmpty(pieces[..i + 1])));
      } else {
        assert NonEmpty(pieces[..i + 1]) == NonEmpty(pieces[..i]) + [];
        assert NonEmpty(pieces[..i + 1]) == NonEmpty(pieces[..i]);
      }
      i := i + 1;
    }
    assert pieces[..|pieces|] == pieces;
    NonEmptySplitOnSpaces(ownersString);
  }

  /** getOptionalInt: 0 for the empty string and for a number that does not
      fit an int, otherwise the number. */
  function GetOptionalInt(fragment: string): (n: int)
    ensures fragment == [] ==> n == 0
    ensures fragment != [] && AllOf(fragment, Digit) ==>
              n == if DigitsValue(fragment) <= MaxInt then DigitsValue(fragment) else 0
    ensures AllOf(fragment, Digit) ==> 0 <= n <= MaxInt
  {
    if fragment == [] then 0
    else
      match Atoi(fragment)
      case None => 0
      case Some(v) => v
  }

  // ---------------------------------------------------------------------
  // Section headings

  /** Whether a section heading names an owner that is not invalid. */
  predicate HasValidOwner(owners: Option<seq<Owner>>) {
    owners.Some? && exists k :: 0 <= k < |owners.value| && owners.value[k].kind != Invalid
  }

  /** parseSectionHeadLine: the ownerless form first, then the form with
      owners; a line that matches neither is unknown and keeps the state. */
  function SectionHeadLineOf(line: string, lineNo: int, state: ParseState): (Line, ParseState) {
    match MatchBareSection(line)
    case Some(x) =>
      (Line(SectionHeading, lineNo, line, "", "", x.head.optional, x.head.name,
            GetOptionalInt(x.head.minApprovers.GetOr("")), "", None, ""),
       ParseState(x.head.name, false))
    case None =>
      match MatchOwnedSection(line)
      case None => (Plain(Unknown, lineNo, line), state)
      case Some(x) =>
        var owners := OwnersOf(x.tail.ownerNames);
        (Line(SectionHeading, lineNo, line, "", "", x.head.optional, x.head.name,
              GetOptionalInt(x.head.minApprovers.GetOr("")), x.tail.spaces, owners, x.tail.comment.GetOr("")),
         ParseState(x.head.name, HasValidOwner(owners)))
  }

  /** The loop of parseSectionHeadLine that stops at the first owner that
      is not invalid. */
  method AnyValidOwner(owners: Option<seq<Owner>>) returns (found: bool)
    ensures found <==> HasValidOwner(owners)
  {
    var list := owners.GetOr([]);
    found := false;
    var i := 0;
    while i < |list|
      invariant 0 <= i <= |list|
      invariant !found
      invariant forall k :: 0 <= k < i ==> list[k].kind == Invalid
    {
      if list[i].kind != Invalid {
        found := true;
        break;
      }
      i := i + 1;
    }
  }

  method ParseSectionHeadLine(line: string, lineNo: int, state: ParseState) returns (l: Line, next: ParseState)
    ensures (l, next) == SectionHeadLineOf(line, lineNo, state)
  {
    var bare := MatchBareSection(line);
    if bare.Some? {
      var x := bare.value;
      l := Line(SectionHeading, lineNo, line, "", "", x.head.optional, x.head.name,
                GetOptionalInt(x.head.minApprovers.GetOr("")), "", None, "");
      next := ParseState(x.head.name, false);
      return;
    }
    var owned := MatchOwnedSection(line);
    if owned.None? {
      l := Plain(Unknown, lineNo, line);
      next := state;
      return;
    }
    var x := owned.value;
    var owners := ParseOwnersString(x.tail.ownerNames);
    var hasValidUsers := AnyValidOwner(owners);
    l := Line(SectionHeading, lineNo, line, "", "", x.head.optional, x.head.name,
              GetOptionalInt(x.head.minApprovers.GetOr("")), x.tail.spaces, owners, x.tail.comment.GetOr(""));
    next := ParseState(x.head.name, hasValidUsers);
  }

  /** A section line is unknown exactly when neither section expression
      matches it; then the state is kept. Otherwise the heading names the
      new current section, which has valid users exactly when the heading
      has an owner that is not invalid; the ownerless form has none. */
  lemma SectionHeadLineState(line: string, lineNo: int, state: ParseState)
    ensures var (l, next) := SectionHeadLineOf(line, lineNo, state);
            && l.lineNo == lineNo && l.raw == line
            && (l.kind == SectionHeading || l.kind == Unknown)
            && (l.kind == Unknown <==> (forall x :: !IsBareSection(line, x)) && (forall x :: !IsOwnedSection(line, x)))
            && (l.kind == Unknown ==> next == state && l == Plain(Unknown, lineNo, line))
            && (l.kind == SectionHeading ==> next == ParseState(l.sectionName, HasValidOwner(l.owners)))
            && (l.kind == SectionHeading ==> l.sectionName != [] && l.sectionMinApprovers >= 0)
            && (l.owners.Some? ==> l.owners.value != [])
            && (forall x :: IsBareSection(line, x) ==> l.owners.None? && next == ParseState(x.head.name, false))
  {
    var (l, next) := SectionHeadLineOf(line, lineNo, state);
    MatchOwnedSectionCorrect(line);
    MatchHeadSound(line);
    forall x | IsBareSection(line, x) ensures MatchBareSection(line) == Some(x) {
      MatchBareSectionExact(line, x);
    }
    if MatchBareSection(line).Some? {
      MatchBareSectionExact(line, MatchBareSection(line).value);
    } else if MatchOwnedSection(line).Some? {
      OwnersOfNames(MatchOwnedSection(line).value.tail.ownerNames);
    }
  }

  // ---------------------------------------------------------------------
  // Rules

  /** parseRuleLine, on the trimmed line: the ownerless form when the
      current section has valid users, else the form with owners, else
      unknown; every outcome records the current section. */
  function ParseRuleLine(line: string, lineNo: int, state: ParseState): Line {
    var bare := MatchBareRule(line);
    if bare.Some? && state.currentSectionHasValidUsers then
      Line(Rule, lineNo, line, bare.value.filesPattern, state.currentSection, false, "", 0,
           bare.value.tail.spaces, None, bare.value.tail.comment.GetOr(""))
    else
      match MatchOwnedRule(line)
      case None => Line(Unknown, lineNo, line, "", state.currentSection, false, "", 0, "", None, "")
      case Some(r) =>
        Line(Rule, lineNo, line, r.filesPattern, state.currentSection, false, "", 0,
             r.tail.spaces, OwnersOf(r.tail.ownerNames), r.tail.comment.GetOr(""))
  }

  /** A rule line is unknown exactly when it has no reading as a rule with
      owners and it cannot be read as an ownerless rule in a section with
      valid users. A rule's pattern is the non-empty run of non-space
      characters it starts with. */
  lemma ParseRuleLineCases(line: string, lineNo: int, state: ParseState)
    ensures var l := ParseRuleLine(line, lineNo, state);
            && l.lineNo == lineNo && l.raw == line && l.ruleSection == state.currentSection
            && (l.kind == Rule || l.kind == Unknown)
            && (l.kind == Unknown <==>
                  (forall r :: !IsOwnedRule(line, r)) &&
                  !(state.currentSectionHasValidUsers && exists r :: IsBareRule(line, r)))
            && (l.kind == Rule ==> l.rulePattern != [] && AllOf(l.rulePattern, NonSpace) && l.rulePattern <= line)
            && (l.owners.Some? ==> l.owners.value != [])
  {
    MatchBareRuleCorrect(line);
    MatchOwnedRuleCorrect(line);
    var l := ParseRuleLine(line, lineNo, state);
    if MatchOwnedRule(line).Some? {
      OwnersOfNames(MatchOwnedRule(line).value.tail.ownerNames);
    }
  }

  // ---------------------------------------------------------------------
  // Lines

  /** What a trimmed line starts with decides how it is parsed. */
  predicate IsSectionStart(trimmed: string) {
    "[" <= trimmed || "^[" <= trimmed
  }

  /** A line that goes to the rule parser. */
  predicate IsRuleText(trimmed: string) {
    trimmed != [] && trimmed[0] != '#' && !IsSectionStart(trimmed)
  }

  /** parseLine: first match wins on the trimmed line; section headings are
      parsed from the line as it is, rules from the trimmed line. */
  function ParseLine(line: string, lineNo: int, state: ParseState): (Line, ParseState) {
    var trimmed := TrimSpace(line);
    if trimmed == [] then (Plain(Empty, lineNo, line), state)
    else if "#!" <= trimmed then (Plain(IgnorableComment, lineNo, line), state)
    else if "#" <= trimmed then (Plain(Comment, lineNo, line), state)
    else if IsSectionStart(trimmed) then SectionHeadLineOf(line, lineNo, state)
    else (ParseRuleLine(trimmed, lineNo, state), state)
  }

  /** The dispatch of parseLine, stated per kind: the record keeps the line
      number; it keeps the line as it is, except on the rule path where it
      keeps the trimmed line; only a section heading changes the state. */
  lemma ParseLineDispatch(line: string, lineNo: int, state: ParseState)
    ensures var (l, next) := ParseLine(line, lineNo, state);
            var trimmed := TrimSpace(line);
            && l.lineNo == lineNo
            && (l.kind == Empty <==> AllOf(line, UniSpace))
            && (l.kind == IgnorableComment <==> "#!" <= trimmed)
            && (l.kind == Comment <==> "#" <= trimmed && !("#!" <= trimmed))
            && (l.kind == SectionHeading ==> IsSectionStart(trimmed))
            && (l.kind == Rule ==> IsRuleText(trimmed))
            && (l.raw == if IsRuleText(trimmed) then trimmed else line)
            && (next != state ==> l.kind == SectionHeading)
            && (l.owners.Some? ==> l.owners.value != [])
  {
    var trimmed := TrimSpace(line);
    if trimmed != [] && !("#" <= trimmed) {
      if IsSectionStart(trimmed) {
        SectionHeadLineState(line, lineNo, state);
        assert trimmed[0] != '#';
      } else {
        ParseRuleLineCases(trimmed, lineNo, state);
      }
    }
  }

  // ---------------------------------------------------------------------
  // The document

  /** The records and the final state of parsing `lines` in order, the first
      numbered 1. */
  function ParseLines(lines: seq<string>): (r: (seq<Line>, ParseState))
    ensures |r.0| == |lines|
  {
    if lines == [] then ([], InitialState)
    else
      var (prev, state) := ParseLines(lines[..|lines| - 1]);
      var (l, next) := ParseLine(lines[|lines| - 1], |lines|, state);
      (prev + [l], next)
  }

  /** The state after some records: the last section heading's name and
      whether it had a valid owner, or the initial state before any. */
  function StateAfter(records: seq<Line>): ParseState {
    if records == [] then InitialState
    else if records[|records| - 1].kind == SectionHeading then
      ParseState(records[|records| - 1].sectionName, HasValidOwner(records[|records| - 1].owners))
    else StateAfter(records[..|records| - 1])
  }

  /** Only a section heading moves the state: to its own name, with valid
      users exactly when it names an owner that is not invalid. */
  lemma ParseLineState(line: string, lineNo: int, state: ParseState)
    ensures var (l, next) := ParseLine(line, lineNo, state);
            && (l.kind == SectionHeading ==> next == ParseState(l.sectionName, HasValidOwner(l.owners)))
            && (l.kind != SectionHeading ==> next == state)
  {
    var trimmed := TrimSpace(line);
    if trimmed != [] && !("#" <= trimmed) {
      if IsSectionStart(trimmed) {
        SectionHeadLineState(line, lineNo, state);
      } else {
        ParseRuleLineCases(trimmed, lineNo, state);
      }
    }
  }

  /** The threaded state is a function of the records produced so far. */
  lemma {:induction false} ParseLinesState(lines: seq<string>)
    ensures ParseLines(lines).1 == StateAfter(ParseLines(lines).0)
  {
    if lines != [] {
      var init := lines[..|lines| - 1];
      ParseLinesState(init);
      var (prev, state) := ParseLines(init);
      ParseLineState(lines[|lines| - 1], |lines|, state);
      var records := ParseLines(lines).0;
      assert records[..|records| - 1] == prev;
    }
  }

  /** Records are numbered from 1 in order. */
  lemma {:induction false} ParseLinesNumbered(lines: seq<string>)
    ensures forall k :: 0 <= k < |lines| ==> ParseLines(lines).0[k].lineNo == k + 1
  {
    if lines != [] {
      var init := lines[..|lines| - 1];
      ParseLinesNumbered(init);
      ParseLineDispatch(lines[|lines| - 1], |lines|, ParseLines(init).1);
    }
  }

  /** No record holds an empty owner list: a line without owner tokens has
      none at all. */
  lemma {:induction false} ParseLinesOwners(lines: seq<string>)
    ensures forall k :: 0 <= k < |lines| ==> ParseLines(lines).0[k].owners.Some? ==> ParseLines(lines).0[k].owners.value != []
  {
    if lines != [] {
      var init := lines[..|lines| - 1];
      ParseLinesOwners(init);
      ParseLineDispatch(lines[|lines| - 1], |lines|, ParseLines(init).1);
    }
  }

  /** Each record is what parseLine makes of its line in the state the
      records before it leave. */
  lemma {:induction false} ParseLinesRecord(lines: seq<string>, k: nat)
    requires k < |lines|
    ensures ParseLines(lines).0[k] == ParseLine(lines[k], k + 1, StateAfter(ParseLines(lines).0[..k])).0
  {
    var init := lines[..|lines| - 1];
    var prev := ParseLines(init).0;
    var records := ParseLines(lines).0;
    assert records[..|records| - 1] == prev;
    if k < |init| {
      ParseLinesRecord(init, k);
      assert records[..k] == prev[..k];
      assert lines[k] == init[k];
      assert records[k] == prev[k];
    } else {
      ParseLinesState(init);
    }
  }

  /** A rule records the name of the last section heading above it, or ""
      when there is none. */
  lemma RuleSectionIsLastHeading(lines: seq<string>, k: nat)
    requires k < |lines|
    ensures var records := ParseLines(lines).0;
            records[k].kind == Rule ==> records[k].ruleSection == StateAfter(records[..k]).currentSection
  {
    ParseLinesRecord(lines, k);
    var records := ParseLines(lines).0;
    var state := StateAfter(records[..k]);
    ParseLineDispatch(lines[k], k + 1, state);
    var trimmed := TrimSpace(lines[k]);
    if IsRuleText(trimmed) {
      ParseRuleLineCases(trimmed, k + 1, state);
    }
  }

  // ---------------------------------------------------------------------
  // Anomalies

  const UnknownLineType: string := "Unknown line type"

  function InvalidUser(name: string): string {
    "Invalid user '" + name + "'"
  }

  /** One anomaly per invalid owner, in order. */
  function InvalidOwnerAnomalies(owners: seq<Owner>, l: Line): seq<Anomaly> {
    if owners == [] then []
    else
      var last := owners[|owners| - 1];
      InvalidOwnerAnomalies(owners[..|owners| - 1], l) +
      (if last.kind == Invalid then [Anomaly(l.lineNo, InvalidUser(last.name), l.raw)] else [])
  }

  /** The anomalies of one record: unknown, or one per invalid owner of a
      rule or section heading. */
  function LineAnomalies(l: Line): seq<Anomaly> {
    (if l.kind == Unknown then [Anomaly(l.lineNo, UnknownLineType, l.raw)] else []) +
    (if l.kind == Rule || l.kind == SectionHeading then InvalidOwnerAnomalies(l.owners.GetOr([]), l) else [])
  }

  /** The second pass of Parse, record by record. */
  function AnomaliesOf(records: seq<Line>): seq<Anomaly> {
    if records == [] then []
    else AnomaliesOf(records[..|records| - 1]) + LineAnomalies(records[|records| - 1])
  }

  /** Whether a record gives rise to an anomaly. */
  predicate IsFaulty(l: Line) {
    || l.kind == Unknown
    || ((l.kind == Rule || l.kind == SectionHeading) &&
        exists j :: 0 <= j < |l.owners.GetOr([])| && l.owners.GetOr([])[j].kind == Invalid)
  }

  lemma {:induction false} InvalidOwnerAnomaliesEmpty(owners: seq<Owner>, l: Line)
    ensures InvalidOwnerAnomalies(owners, l) == [] <==> forall j :: 0 <= j < |owners| ==> owners[j].kind != Invalid
  {
    if owners != [] {
      InvalidOwnerAnomaliesEmpty(owners[..|owners| - 1], l);
      assert forall j :: 0 <= j < |owners| - 1 ==> owners[..|owners| - 1][j] == owners[j];
    }
  }

  /** The report is empty exactly when no record is unknown and no rule or
      section heading has an invalid owner. */
  lemma {:induction false} AnomaliesOfEmpty(records: seq<Line>)
    ensures AnomaliesOf(records) == [] <==> forall k :: 0 <= k < |records| ==> !IsFaulty(records[k])
  {
    if records != [] {
      var last := records[|records| - 1];
      AnomaliesOfEmpty(records[..|records| - 1]);
      InvalidOwnerAnomaliesEmpty(last.owners.GetOr([]), last);
      assert forall k :: 0 <= k < |records| - 1 ==> records[..|records| - 1][k] == records[k];
    }
  }

  /** Every anomaly of an owner list comes from an invalid owner of it. */
  lemma {:induction false} InvalidOwnerAnomaliesOrigin(owners: seq<Owner>, l: Line)
    ensures forall a :: a in InvalidOwnerAnomalies(owners, l) ==>
              a.lineNo == l.lineNo && a.raw == l.raw &&
              exists j :: 0 <= j < |owners| && owners[j].kind == Invalid && a.reason == InvalidUser(owners[j].name)
  {
    if owners != [] {
      var init := owners[..|owners| - 1];
      InvalidOwnerAnomaliesOrigin(init, l);
      forall a | a in InvalidOwnerAnomalies(init, l)
        ensures exists j :: 0 <= j < |owners| && owners[j].kind == Invalid && a.reason == InvalidUser(owners[j].name)
      {
        var j :| 0 <= j < |init| && init[j].kind == Invalid && a.reason == InvalidUser(init[j].name);
        assert owners[j] == init[j];
      }
    }
  }

  /** Whether record `l` accounts for anomaly `a`: it has the anomaly's
      number and text, and is unknown or has the invalid owner it names. */
  predicate Explains(l: Line, a: Anomaly) {
    && a.lineNo == l.lineNo && a.raw == l.raw
    && (|| (a.reason == UnknownLineType && l.kind == Unknown)
        || ((l.kind == Rule || l.kind == SectionHeading) &&
            exists j :: 0 <= j < |l.owners.GetOr([])| && l.owners.GetOr([])[j].kind == Invalid &&
                        a.reason == InvalidUser(l.owners.GetOr([])[j].name)))
  }

  /** Every anomaly comes from a record, with that record's number and text:
      an unknown record, or an invalid owner of a rule or section heading. */
  lemma {:induction false} AnomaliesOfOrigin(records: seq<Line>)
    ensures forall a :: a in AnomaliesOf(records) ==> exists k :: 0 <= k < |records| && Explains(records[k], a)
  {
    if records != [] {
      var n := |records| - 1;
      var init := records[..n];
      var last := records[n];
      AnomaliesOfOrigin(init);
      InvalidOwnerAnomaliesOrigin(last.owners.GetOr([]), last);
      forall a | a in AnomaliesOf(records)
        ensures exists k :: 0 <= k < |records| && Explains(records[k], a)
      {
        if a in AnomaliesOf(init) {
          var k :| 0 <= k < |init| && Explains(init[k], a);
          assert records[k] == init[k];
        } else {
          assert a in LineAnomalies(last);
          assert Explains(records[n], a);
        }
      }
    }
  }

  /** Anomalies come in the order of their records. */
  lemma {:induction false} AnomaliesOfOrdered(records: seq<Line>)
    requires forall k :: 0 <= k < |records| ==> records[k].lineNo == k + 1
    ensures forall i, j :: 0 <= i < j < |AnomaliesOf(records)| ==> AnomaliesOf(records)[i].lineNo <= AnomaliesOf(records)[j].lineNo
  {
    if records != [] {
      var n := |records| - 1;
      var init := records[..n];
      var last := records[n];
      AnomaliesOfOrdered(init);
      AnomaliesOfOrigin(init);
      InvalidOwnerAnomaliesOrigin(last.owners.GetOr([]), last);
      var before := AnomaliesOf(init);
      var now := LineAnomalies(last);
      assert AnomaliesOf(records) == before + now;
      forall a | a in before ensures a.lineNo <= n {
        var k :| 0 <= k < |init| && Explains(init[k], a);
        assert init[k] == records[k];
      }
      forall a | a in now ensures a.lineNo == n + 1 {
      }
      forall i, j | 0 <= i < j < |before + now| ensures (before + now)[i].lineNo <= (before + now)[j].lineNo {
        if j >= |before| {
          assert (before + now)[j] in now;
          if i < |before| {
            assert (before + now)[i] in before;
          } else {
            assert (before + now)[i] in now;
          }
        }
      }
    }
  }

  /** `pos` lists, in increasing order and each once, the positions of the
      invalid owners, and the anomalies are theirs, one by one. */
  predicate InvalidPositions(owners: seq<Owner>, l: Line, anomalies: seq<Anomaly>, pos: seq<int>) {
    && |pos| == |anomalies|
    && (forall i :: 0 <= i < |pos| ==>
          0 <= pos[i] < |owners| && owners[pos[i]].kind == Invalid &&
          anomalies[i] == Anomaly(l.lineNo, InvalidUser(owners[pos[i]].name), l.raw))
    && (forall i, i' :: 0 <= i < i' < |pos| ==> pos[i] < pos[i'])
    && (forall j :: 0 <= j < |owners| && owners[j].kind == Invalid ==> j in pos)
  }

  /** The anomalies of an owner list are one per invalid owner, in the
      order of the owners. */
  lemma {:induction false} InvalidOwnerAnomaliesExact(owners: seq<Owner>, l: Line)
    ensures exists pos :: InvalidPositions(owners, l, InvalidOwnerAnomalies(owners, l), pos)
  {
    if owners == [] {
      var pos: seq<int> := [];
      assert InvalidPositions(owners, l, InvalidOwnerAnomalies(owners, l), pos);
    } else {
      var n := |owners| - 1;
      var before := InvalidOwnerAnomalies(owners[..n], l);
      InvalidOwnerAnomaliesExact(owners[..n], l);
      var pos0 :| InvalidPositions(owners[..n], l, before, pos0);
      var pos := InvalidPositionsSnoc(owners, l, before, pos0);
    }
  }

  /** Extends the positions of the invalid owners of all but the last
      owner to those of the whole list. */
  lemma InvalidPositionsSnoc(owners: seq<Owner>, l: Line, before: seq<Anomaly>, pos0: seq<int>)
      returns (pos: seq<int>)
    requires owners != []
    requires before == InvalidOwnerAnomalies(owners[..|owners| - 1], l)
    requires InvalidPositions(owners[..|owners| - 1], l, before, pos0)
    ensures InvalidPositions(owners, l, InvalidOwnerAnomalies(owners, l), pos)
  {
    var n := |owners| - 1;
    var init := owners[..n];
    assert forall j :: 0 <= j < n ==> init[j] == owners[j];
    if owners[n].kind == Invalid {
      pos := pos0 + [n];
      var a := before + [Anomaly(l.lineNo, InvalidUser(owners[n].name), l.raw)];
      assert InvalidOwnerAnomalies(owners, l) == a;
      forall j | 0 <= j < |owners| && owners[j].kind == Invalid ensures j in pos {
        if j < n {
          assert init[j].kind == Invalid;
          assert j in pos0;
        }
      }
      assert InvalidPositions(owners, l, a, pos);
    } else {
      pos := pos0;
      assert InvalidOwnerAnomalies(owners, l) == before;
      forall j | 0 <= j < |owners| && owners[j].kind == Invalid ensures j in pos0 {
        assert init[j].kind == Invalid;
      }
    }
  }

  /** Every invalid owner gives its anomaly. */
  lemma InvalidOwnerAnomaliesComplete(owners: seq<Owner>, l: Line, j: nat)
    requires j < |owners| && owners[j].kind == Invalid
    ensures Anomaly(l.lineNo, InvalidUser(owners[j].name), l.raw) in InvalidOwnerAnomalies(owners, l)
  {
    InvalidOwnerAnomaliesExact(owners, l);
    var pos :| InvalidPositions(owners, l, InvalidOwnerAnomalies(owners, l), pos);
    assert j in pos;
    var i :| 0 <= i < |pos| && pos[i] == j;
    assert InvalidOwnerAnomalies(owners, l)[i] == Anomaly(l.lineNo, InvalidUser(owners[j].name), l.raw);
  }

  /** The anomalies of two runs of records are those of the first, then
      those of the second. */
  lemma {:induction false} AnomaliesOfAppend(a: seq<Line>, b: seq<Line>)
    ensures AnomaliesOf(a + b) == AnomaliesOf(a) + AnomaliesOf(b)
  {
    if b == [] {
      assert a + b == a;
    } else {
      var n := |b| - 1;
      var b' := b[..n];
      AnomaliesOfAppend(a, b');
      var last := LineAnomalies(b[n]);
      assert AnomaliesOf(a + b) == AnomaliesOf(a + b') + last by {
        assert (a + b)[..|a + b| - 1] == a + b';
        assert (a + b)[|a + b| - 1] == b[n];
      }
      assert AnomaliesOf(b) == AnomaliesOf(b') + last;
    }
  }

  /** Each record's anomalies form one block, after those of the records
      before it and before those of the records after it. */
  lemma AnomaliesOfSplit(records: seq<Line>, k: nat)
    requires k < |records|
    ensures AnomaliesOf(records) ==
            AnomaliesOf(records[..k]) + LineAnomalies(records[k]) + AnomaliesOf(records[k + 1..])
  {
    var front := records[..k];
    var here := [records[k]];
    var back := records[k + 1..];
    AnomaliesOfSingle(records[k]);
    RecordsAround(records, k);
    AnomaliesOfAppend(front + here, back);
    AnomaliesOfAppend(front, here);
  }

  lemma AnomaliesOfSingle(l: Line)
    ensures AnomaliesOf([l]) == LineAnomalies(l)
  {
    assert [l][..0] == [];
  }

  lemma RecordsAround(records: seq<Line>, k: nat)
    requires k < |records|
    ensures records == (records[..k] + [records[k]]) + records[k + 1..]
  {
    assert records[..k + 1] == records[..k] + [records[k]];
    assert records == records[..k + 1] + records[k + 1..];
  }

  /** Every unknown record and every invalid owner of a rule or section
      heading gives its anomaly. */
  lemma AnomaliesOfComplete(records: seq<Line>)
    ensures forall k :: 0 <= k < |records| && records[k].kind == Unknown ==>
              Anomaly(records[k].lineNo, UnknownLineType, records[k].raw) in AnomaliesOf(records)
    ensures forall k, j :: 0 <= k < |records| && (records[k].kind == Rule || records[k].kind == SectionHeading) &&
                           0 <= j < |records[k].owners.GetOr([])| && records[k].owners.GetOr([])[j].kind == Invalid ==>
              Anomaly(records[k].lineNo, InvalidUser(records[k].owners.GetOr([])[j].name), records[k].raw) in AnomaliesOf(records)
  {
    forall k | 0 <= k < |records| && records[k].kind == Unknown
      ensures Anomaly(records[k].lineNo, UnknownLineType, records[k].raw) in AnomaliesOf(records)
    {
      AnomaliesOfSplit(records, k);
      assert Anomaly(records[k].lineNo, UnknownLineType, records[k].raw) in LineAnomalies(records[k]);
    }
    forall k, j | 0 <= k < |records| && (records[k].kind == Rule || records[k].kind == SectionHeading) &&
                  0 <= j < |records[k].owners.GetOr([])| && records[k].owners.GetOr([])[j].kind == Invalid
      ensures Anomaly(records[k].lineNo, InvalidUser(records[k].owners.GetOr([])[j].name), records[k].raw) in AnomaliesOf(records)
    {
      var l := records[k];
      AnomaliesOfSplit(records, k);
      InvalidOwnerAnomaliesComplete(l.owners.GetOr([]), l, j);
      assert LineAnomalies(l) == [] + InvalidOwnerAnomalies(l.owners.GetOr([]), l);
    }
  }

  // ---------------------------------------------------------------------
  // Parse

  /** The first loop of Parse: every line in order, threading the state. */
  method ParseRecords(lines: seq<string>) returns (records: seq<Line>)
    ensures records == ParseLines(lines).0
  {
    records := [];
    var state := InitialState;
    for i := 0 to |lines|
      invariant (records, state) == ParseLines(lines[..i])
    {
      assert lines[..i + 1][..i] == lines[..i];
      var (l, next) := ParseLine(lines[i], i + 1, state);
      records := records + [l];
      state := next;
    }
    assert lines[..|lines|] == lines;
  }

  /** The second loop of Parse: an anomaly per unknown record and per
      invalid owner of a rule or section heading. */
  method CollectAnomalies(records: seq<Line>) returns (anomalies: seq<Anomaly>)
    ensures anomalies == AnomaliesOf(records)
  {
    anomalies := [];
    for n := 0 to |records|
      invariant anomalies == AnomaliesOf(records[..n])
    {
      assert records[..n + 1][..n] == records[..n];
      var l := records[n];
      if l.kind == Unknown {
        anomalies := anomalies + [Anomaly(l.lineNo, UnknownLineType, l.raw)];
      }
      if l.kind == Rule || l.kind == SectionHeading {
        var owners := l.owners.GetOr([]);
        var before := anomalies;
        for j := 0 to |owners|
          invariant anomalies == before + InvalidOwnerAnomalies(owners[..j], l)
        {
          assert owners[..j + 1][..j] == owners[..j];
          if owners[j].kind == Invalid {
            anomalies := anomalies + [Anomaly(l.lineNo, InvalidUser(owners[j].name), l.raw)];
          }
        }
        assert owners[..|owners|] == owners;
      }
    }
    assert records[..|records|] == records;
  }

  /** Parse: the records of the lines of `content` and their anomalies. */
  method Parse(content: string) returns (records: seq<Line>, anomalies: seq<Anomaly>)
    ensures records == ParseLines(SplitLines(content)).0
    ensures anomalies == AnomaliesOf(records)
  {
    var lines := SplitLines(content);
    records := ParseRecords(lines);
    anomalies := CollectAnomalies(records);
  }

  /** Empty content is one empty record, numbered 1, with no anomaly. */
  lemma ParseEmpty()
    ensures ParseLines(SplitLines("")).0 == [Plain(Empty, 1, "")]
    ensures AnomaliesOf([Plain(Empty, 1, "")]) == []
  {
    assert SplitLines("") == [""];
    assert [""][..0] == [];
    assert TrimSpace("") == [];
    assert [Plain(Empty, 1, "")][..0] == [];
  }
}
