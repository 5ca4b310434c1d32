/** The CODEOWNERS writer of internal/codeowners/format.go: rules and
    section headings with owners are written again from their fields,
    ignorable comments are dropped, every other record is written back as
    it was read. */
module Formatter {
  import opened Wrappers
  import opened GoText
  import opened Patterns
  import opened Codeowners

  // ---------------------------------------------------------------------
  // Owners

  /** The owners' names, in order, separated by single spaces. */
  function JoinNames(owners: seq<Owner>): string {
    if owners == [] then []
    else if |owners| == 1 then owners[0].name
    else JoinNames(owners[..|owners| - 1]) + " " + owners[|owners| - 1].name
  }

  /** The owners' names, in order. */
  function Names(owners: seq<Owner>): seq<string> {
    if owners == [] then []
    else Names(owners[..|owners| - 1]) + [owners[|owners| - 1].name]
  }

  /** formatOwners: the names, with a space after every name but the last. */
  method FormatOwners(owners: seq<Owner>) returns (output: string)
    ensures output == JoinNames(owners)
  {
    output := "";
    for i := 0 to |owners|
      invariant output == JoinNames(owners[..i]) + (if 0 < i < |owners| then " " else "")
    {
      assert owners[..i + 1][..i] == owners[..i];
      output := output + owners[i].name;
      if i < |owners| - 1 {
        output := output + " ";
      }
    }
    assert owners[..|owners|] == owners;
  }

  /** A name that reads back as one owner token. */
  predicate IsToken(name: string) {
    name != [] && AllOf(name, NonSpace) && AllOf(name, NoHash)
  }

  /** Owners as the parser makes them: at least one, each a token the
      parser classifies the way the owner records. */
  predicate CanonicalOwners(owners: seq<Owner>) {
    owners != [] &&
    forall k :: 0 <= k < |owners| ==> IsToken(owners[k].name) && owners[k] == ParseOwner(owners[k].name)
  }

  /** Splitting the joined names on white space gives the names back. */
  lemma {:induction false} JoinNamesWords(owners: seq<Owner>)
    requires forall k :: 0 <= k < |owners| ==> owners[k].name != [] && AllOf(owners[k].name, NonSpace)
    ensures Words(JoinNames(owners)) == Names(owners)
  {
    if owners != [] {
      var init := owners[..|owners| - 1];
      var last := owners[|owners| - 1];
      WordsOfWord(last.name);
      if init == [] {
        assert Names(owners) == [] + [last.name];
      } else {
        forall k | 0 <= k < |init| ensures init[k].name != [] && AllOf(init[k].name, NonSpace) {
          assert init[k] == owners[k];
        }
        JoinNamesWords(init);
        WordsConcat(JoinNames(init), " ", last.name);
      }
    }
  }

  /** Joined tokens are non-empty, start with the first name's first
      character and hold no `#`. */
  lemma {:induction false} JoinNamesShape(owners: seq<Owner>)
    requires owners != []
    requires forall k :: 0 <= k < |owners| ==> IsToken(owners[k].name)
    ensures JoinNames(owners) != [] && In(JoinNames(owners)[0], NonSpace)
    ensures AllOf(JoinNames(owners), NoHash)
  {
    var init := owners[..|owners| - 1];
    var last := owners[|owners| - 1];
    if init == [] {
      assert IsToken(owners[0].name);
    } else {
      forall k | 0 <= k < |init| ensures IsToken(init[k].name) {
        assert init[k] == owners[k];
      }
      JoinNamesShape(init);
      assert init[0] == owners[0];
      var j := JoinNames(init) + " " + last.name;
      forall k | 0 <= k < |j| ensures In(j[k], NoHash) {
        if k > |JoinNames(init)| {
          assert j[k] == last.name[k - |JoinNames(init)| - 1];
        }
      }
    }
  }

  /** Parsing the names again classifies each the same way. */
  lemma {:induction false} ParseOwnersNames(owners: seq<Owner>)
    requires forall k :: 0 <= k < |owners| ==> owners[k] == ParseOwner(owners[k].name)
    ensures ParseOwners(Names(owners)) == owners
  {
    if owners != [] {
      var init := owners[..|owners| - 1];
      forall k | 0 <= k < |init| ensures init[k] == ParseOwner(init[k].name) {
        assert init[k] == owners[k];
      }
      ParseOwnersNames(init);
      ParseOwnersSnoc(Names(init), owners[|owners| - 1].name);
    }
  }

  /** formatOwners and parseOwnersString are inverse: the written owners,
      with or without a trailing space, read back as the same list. */
  lemma OwnersOfJoinNames(owners: seq<Owner>, trailer: string)
    requires CanonicalOwners(owners)
    requires trailer == "" || trailer == " "
    ensures OwnersOf(JoinNames(owners) + trailer) == Some(owners)
  {
    var j := JoinNames(owners);
    JoinNamesWords(owners);
    ParseOwnersNames(owners);
    if trailer == " " {
      WordsConcat(j, " ", "");
      assert j + " " + "" == j + trailer;
      assert Words("") == [];
      assert Words(j) + [] == Words(j);
    } else {
      assert j + trailer == j;
    }
    assert Names(owners) != [] by {
      NamesLength(owners);
    }
  }

  lemma {:induction false} NamesLength(owners: seq<Owner>)
    ensures |Names(owners)| == |owners|
  {
    if owners != [] {
      NamesLength(owners[..|owners| - 1]);
    }
  }

  // ---------------------------------------------------------------------
  // The other parts of a line

  /** formatInlineComment: ` #` and the comment, or nothing for none. */
  function FormatInlineComment(inlineComment: string): string {
    if inlineComment != "" then " #" + inlineComment else ""
  }

  /** formatOptional: the `^` of an optional section. */
  function FormatOptional(sectionOptional: bool): string {
    if sectionOptional then "^" else ""
  }

  /** formatMinApprovers: `[n]` for a positive number, else nothing. */
  function FormatMinApprovers(sectionMinApprovers: int): string {
    if sectionMinApprovers > 0 then "[" + FormatInt(sectionMinApprovers) + "]" else ""
  }

  /** formatRule. */
  function FormatRule(l: Line): string {
    l.rulePattern + l.spaces + JoinNames(l.owners.GetOr([])) + FormatInlineComment(l.inlineComment)
  }

  /** formatSectionHeading. */
  function FormatSectionHeading(l: Line): string {
    FormatOptional(l.sectionOptional) + "[" + l.sectionName + "]" + FormatMinApprovers(l.sectionMinApprovers) +
    l.spaces + JoinNames(l.owners.GetOr([])) + FormatInlineComment(l.inlineComment)
  }

  /** Line.String: nothing for an ignorable comment; a rule, and a section
      heading with owners, written from their fields; anything else as it
      was read; each line ends with a line feed. */
  function LineString(l: Line): string {
    match l.kind
    case IgnorableComment => ""
    case Rule => FormatRule(l) + "\n"
    case SectionHeading => if l.owners.Some? then FormatSectionHeading(l) + "\n" else l.raw + "\n"
    case _ => l.raw + "\n"
  }

  /** The lines of a tree, one after the other. */
  function Render(cst: seq<Line>): string {
    if cst == [] then ""
    else Render(cst[..|cst| - 1]) + LineString(cst[|cst| - 1])
  }

  /** CST.Format: the header comment, then every record's line. Go's error
      result is always nil and is not modelled. */
  method Format(cst: seq<Line>, headerComment: string) returns (output: string)
    ensures output == headerComment + Render(cst)
  {
    output := headerComment;
    for i := 0 to |cst|
      invariant output == headerComment + Render(cst[..i])
    {
      var piece := LineString(cst[i]);
      RenderSnoc(headerComment, cst, i);
      output := output + piece;
    }
    assert cst[..|cst|] == cst;
  }

  /** Rendering one more record appends its line. */
  lemma RenderSnoc(headerComment: string, cst: seq<Line>, i: nat)
    requires i < |cst|
    ensures headerComment + Render(cst[..i + 1]) == headerComment + Render(cst[..i]) + LineString(cst[i])
  {
    assert cst[..i + 1][..i] == cst[..i];
  }

  // ---------------------------------------------------------------------
  // Reading written lines back

  /** The tail the rule and section expressions with owners find in what
      follows the pattern or heading of a written line: the spaces, the
      names (with the space formatInlineComment puts before `#`), and the
      comment, which a written empty comment leaves out. */
  function WrittenTail(spaces: string, owners: seq<Owner>, inlineComment: string): OwnedTail {
    if inlineComment == "" then OwnedTail(spaces, JoinNames(owners), None)
    else OwnedTail(spaces, JoinNames(owners) + " ", Some(inlineComment))
  }

  /** The written tail is a reading of the text after the pattern or the
      heading, and no reading has a longer run of spaces. */
  lemma WrittenTailReads(spaces: string, owners: seq<Owner>, inlineComment: string)
    requires spaces != [] && AllOf(spaces, Space)
    requires CanonicalOwners(owners)
    requires AllOf(inlineComment, Dot)
    ensures var t := spaces + JoinNames(owners) + FormatInlineComment(inlineComment);
            && IsOwnedTail(t, WrittenTail(spaces, owners, inlineComment))
            && forall o :: IsOwnedTail(t, o) ==> |o.spaces| <= |spaces|
  {
    var j := JoinNames(owners);
    var t := spaces + j + FormatInlineComment(inlineComment);
    var w := WrittenTail(spaces, owners, inlineComment);
    JoinNamesShape(owners);
    if inlineComment == "" {
      assert t == w.spaces + w.ownerNames + CommentText(w.comment);
    } else {
      assert t == w.spaces + w.ownerNames + CommentText(w.comment);
      assert AllOf(w.ownerNames, NoHash) by {
        forall k | 0 <= k < |w.ownerNames| ensures In(w.ownerNames[k], NoHash) {
          if k < |j| {
            assert w.ownerNames[k] == j[k];
          }
        }
      }
    }
    assert t[|spaces|] == j[0];
    forall o | IsOwnedTail(t, o) ensures |o.spaces| <= |spaces| {
      if |o.spaces| > |spaces| {
        assert false;
      }
    }
  }

  /** A rule with owners is written so that the rule expression reads back
      its pattern, spaces, owner names and comment. */
  lemma FormatRuleMatches(l: Line)
    requires l.rulePattern != [] && AllOf(l.rulePattern, NonSpace)
    requires l.spaces != [] && AllOf(l.spaces, Space)
    requires l.owners.Some? && CanonicalOwners(l.owners.value)
    requires AllOf(l.inlineComment, Dot)
    ensures MatchOwnedRule(FormatRule(l)) == Some(OwnedRule(l.rulePattern, WrittenTail(l.spaces, l.owners.value, l.inlineComment)))
  {
    var s := FormatRule(l);
    var p := l.rulePattern;
    var t := l.spaces + JoinNames(l.owners.value) + FormatInlineComment(l.inlineComment);
    var r := OwnedRule(p, WrittenTail(l.spaces, l.owners.value, l.inlineComment));
    assert s == p + t;
    assert s[|p|..] == t;
    WrittenTailReads(l.spaces, l.owners.value, l.inlineComment);
    assert IsOwnedRule(s, r);
    MatchOwnedRuleCorrect(s);
    assert IsOwnedTail(t, MatchOwnedRule(s).value.tail);
  }

  /** A written rule with owners holds no `#` before its owners when the
      pattern has none, so the ownerless rule expression cannot read it. */
  lemma FormatRuleNotBare(l: Line)
    requires l.rulePattern != [] && AllOf(l.rulePattern, NonSpace) && AllOf(l.rulePattern, NoHash)
    requires l.spaces != [] && AllOf(l.spaces, Space)
    requires l.owners.Some? && CanonicalOwners(l.owners.value)
    ensures MatchBareRule(FormatRule(l)) == None
  {
    var s := FormatRule(l);
    var p := l.rulePattern;
    var j := JoinNames(l.owners.value);
    var z := |p| + |l.spaces|;
    JoinNamesShape(l.owners.value);
    assert s == p + l.spaces + j + FormatInlineComment(l.inlineComment);
    assert s[z] == j[0] && In(j[0], NoHash);
    assert s[|p|] == l.spaces[0];
    forall k | 0 <= k < z ensures s[k] != '#' {
      if k < |p| {
        assert s[k] == p[k];
      } else {
        assert s[k] == l.spaces[k - |p|];
      }
    }
    BareRuleBlocked(s, |p|, z);
  }

  /** A line whose first white space comes at `w`, and that holds a
      character other than white space or `#` at `z` after it with no `#`
      before, is not an ownerless rule: the ownerless tail cannot reach
      past `z`. */
  lemma BareRuleBlocked(s: string, w: nat, z: nat)
    requires 0 < w <= z < |s|
    requires IsReSpace(s[w])
    requires forall k :: 0 <= k < z ==> s[k] != '#'
    requires In(s[z], NonSpace) && s[z] != '#'
    ensures MatchBareRule(s) == None
  {
    MatchBareRuleCorrect(s);
    if MatchBareRule(s).Some? {
      var m := MatchBareRule(s).value;
      NonSpacePrefixBound(m.filesPattern, s, w);
      BareTailStops(s, |m.filesPattern|, z, m.tail);
      assert false;
    }
  }

  /** A run of non-space characters at the start of `s` ends at the first
      white space. */
  lemma NonSpacePrefixBound(r: string, s: string, k: nat)
    requires r <= s && AllOf(r, NonSpace)
    requires k < |s| && IsReSpace(s[k])
    ensures |r| <= k
  {
  }

  /** The ownerless tail, read from `i`, meets white space or `#` before any
      other character. */
  lemma BareTailStops(s: string, i: nat, z: nat, b: BareTail)
    requires i <= z < |s|
    requires i <= |s| && s[i..] == b.spaces + CommentText(b.comment)
    requires AllOf(b.spaces, Space)
    requires forall k :: i <= k < z ==> s[k] != '#'
    ensures IsReSpace(s[z]) || s[z] == '#'
  {
    var q := |b.spaces|;
    if z - i < q {
      assert s[z] == b.spaces[z - i];
    } else {
      assert s[i + q] == '#';
    }
  }

  /** A rule read from the line is the rule the parser makes of it in the
      given state (the parts `formatRule` writes are the same). */
  predicate SameRule(read: Line, l: Line) {
    && read.kind == Rule && l.kind == Rule
    && read.rulePattern == l.rulePattern
    && read.spaces == l.spaces
    && read.owners == l.owners
    && read.inlineComment == l.inlineComment
  }

  /** formatRule then parseRuleLine: a rule with owners is read back with
      the same pattern, spaces, owners and comment; the section it records
      is the current one. A section with valid users first tries the
      ownerless expression, which a `#` in the pattern can satisfy, so
      there the pattern must be free of `#`. */
  lemma FormatRuleRoundTrip(l: Line, lineNo: int, state: ParseState)
    requires l.kind == Rule
    requires l.rulePattern != [] && AllOf(l.rulePattern, NonSpace)
    requires state.currentSectionHasValidUsers ==> AllOf(l.rulePattern, NoHash)
    requires l.spaces != [] && AllOf(l.spaces, Space)
    requires l.owners.Some? && CanonicalOwners(l.owners.value)
    requires AllOf(l.inlineComment, Dot)
    ensures var read := ParseRuleLine(FormatRule(l), lineNo, state);
            && SameRule(read, l)
            && read.lineNo == lineNo && read.raw == FormatRule(l)
            && read.ruleSection == state.currentSection
  {
    var s := FormatRule(l);
    FormatRuleMatches(l);
    if state.currentSectionHasValidUsers {
      FormatRuleNotBare(l);
    }
    var w := WrittenTail(l.spaces, l.owners.value, l.inlineComment);
    OwnersOfJoinNames(l.owners.value, if l.inlineComment == "" then "" else " ");
    assert w.ownerNames == JoinNames(l.owners.value) + (if l.inlineComment == "" then "" else " ");
  }

  /** A pattern with a `#`, a space and an owner, under a section with valid
      users: the ownerless expression reads the pattern up to the `#` and
      the rest as a comment, so the owner is lost. */
  lemma HashInPatternExample()
    ensures var read := ParseRuleLine("a#b @x", 1, ParseState("s", true));
            read.kind == Rule && read.rulePattern == "a" && read.owners == None && read.inlineComment == "b @x"
  {
    var s := "a#b @x";
    RunEndUnique(s, 0, 3, NonSpace);
    assert s[3..] == " @x" && s[2..] == "b @x" && s[1..] == "#b @x" && s[..1] == "a";
    BareTailExamples();
    assert SearchBareRule(s, 3) == SearchBareRule(s, 2) == SearchBareRule(s, 1);
  }

  /** How the ownerless tail reads the three ends of "a#b @x". */
  lemma BareTailExamples()
    ensures MatchBareTail(" @x") == None
    ensures MatchBareTail("b @x") == None
    ensures MatchBareTail("#b @x") == Some(BareTail("", Some("b @x")))
  {
    RunEndUnique(" @x", 0, 1, Space);
    assert " @x"[1..] == "@x";
    assert "#b @x"[0..] == "#b @x";
    assert "#b @x"[1..] == "b @x";
  }

  /** An ownerless rule is written so that, in a section with valid users,
      it is read back with the same pattern, owners and comment; a comment
      brings one more space before the `#`. */
  lemma FormatOwnerlessRuleRoundTrip(l: Line, lineNo: int, state: ParseState)
    requires l.kind == Rule && state.currentSectionHasValidUsers
    requires l.rulePattern != [] && AllOf(l.rulePattern, NonSpace)
    requires AllOf(l.spaces, Space)
    requires l.owners.None?
    requires AllOf(l.inlineComment, Dot)
    ensures var read := ParseRuleLine(FormatRule(l), lineNo, state);
            && read.kind == Rule
            && read.rulePattern == l.rulePattern
            && read.spaces == (if l.inlineComment == "" then l.spaces else l.spaces + " ")
            && read.owners == None
            && read.inlineComment == l.inlineComment
            && read.lineNo == lineNo && read.raw == FormatRule(l)
            && read.ruleSection == state.currentSection
  {
    var s := FormatRule(l);
    var p := l.rulePattern;
    var b := if l.inlineComment == "" then BareTail(l.spaces, None) else BareTail(l.spaces + " ", Some(l.inlineComment));
    var t := l.spaces + FormatInlineComment(l.inlineComment);
    assert JoinNames([]) == [];
    assert s == p + t;
    assert s[|p|..] == t;
    assert t == b.spaces + CommentText(b.comment);
    assert IsBareTail(t, b);
    assert IsBareRule(s, BareRule(p, b));
    MatchBareRuleCorrect(s);
    var m := MatchBareRule(s).value;
    assert IsBareRule(s, m);
    if t != [] {
      assert s[|p|] == t[0];
      assert IsReSpace(t[0]) by {
        if l.spaces != [] {
          assert t[0] == l.spaces[0];
        }
      }
      NonSpacePrefixBound(m.filesPattern, s, |p|);
    }
    assert m == BareRule(p, b);
  }

  // ---------------------------------------------------------------------
  // Section headings read back

  /** The minimum number of approvals as the section expressions see it. */
  function ApproversOf(sectionMinApprovers: int): Option<string> {
    if sectionMinApprovers > 0 then Some(FormatInt(sectionMinApprovers)) else None
  }

  /** The heading formatSectionHeading writes. */
  function WrittenHead(l: Line): SectionHead {
    SectionHead(l.sectionOptional, l.sectionName, ApproversOf(l.sectionMinApprovers))
  }

  /** formatMinApprovers writes what the heading expression reads as the
      minimum, and getOptionalInt gives the number back; zero and negative
      numbers are not written and read back as zero. */
  lemma FormatMinApproversReads(n: int)
    requires n <= MaxInt
    ensures FormatMinApprovers(n) == ApproversText(ApproversOf(n))
    ensures IsApprovers(ApproversOf(n))
    ensures GetOptionalInt(ApproversOf(n).GetOr("")) == if n > 0 then n else 0
  {
    if n > 0 {
      FormatIntShape(n);
      DecimalDigits(n);
    }
  }

  /** A heading with owners is written as its heading text and the tail
      shared with rules; the heading expression reads the heading back. */
  lemma FormatSectionHead(l: Line)
    requires l.sectionName != [] && AllOf(l.sectionName, NoCloseBracket)
    requires l.sectionMinApprovers <= MaxInt
    requires l.spaces != [] && AllOf(l.spaces, Space)
    ensures var s := FormatSectionHeading(l);
            var h := WrittenHead(l);
            && IsHead(h)
            && s == HeadText(h) + (l.spaces + JoinNames(l.owners.GetOr([])) + FormatInlineComment(l.inlineComment))
            && MatchHead(s) == Some(h)
  {
    var s := FormatSectionHeading(l);
    var h := WrittenHead(l);
    var t := l.spaces + JoinNames(l.owners.GetOr([])) + FormatInlineComment(l.inlineComment);
    FormatMinApproversReads(l.sectionMinApprovers);
    assert s == HeadText(h) + t;
    assert s[|HeadText(h)|] == l.spaces[0];
    assert In(l.spaces[0], Space);
    MatchHeadUnique(s, h);
  }

  /** The ownerless section expression cannot read a heading with owners:
      its spaces are followed by a name. */
  lemma FormatSectionNotBare(l: Line)
    requires l.sectionName != [] && AllOf(l.sectionName, NoCloseBracket)
    requires l.sectionMinApprovers <= MaxInt
    requires l.spaces != [] && AllOf(l.spaces, Space)
    requires l.owners.Some? && CanonicalOwners(l.owners.value)
    ensures MatchBareSection(FormatSectionHeading(l)) == None
  {
    var s := FormatSectionHeading(l);
    var h := WrittenHead(l);
    var j := JoinNames(l.owners.value);
    var t := l.spaces + j + FormatInlineComment(l.inlineComment);
    FormatSectionHead(l);
    assert s[|HeadText(h)|..] == t;
    JoinNamesShape(l.owners.value);
    var z := |l.spaces|;
    assert t[z] == j[0] && In(j[0], NoHash);
    forall k | 0 <= k < z ensures t[k] != '#' {
      assert t[k] == l.spaces[k];
    }
    BareTailBlocked(t, z);
  }

  /** A character other than white space or `#`, with no `#` before it,
      stops the ownerless tail. */
  lemma BareTailBlocked(t: string, z: nat)
    requires z < |t|
    requires forall k :: 0 <= k < z ==> t[k] != '#'
    requires In(t[z], NonSpace) && t[z] != '#'
    ensures MatchBareTail(t) == None
  {
    if MatchBareTail(t).Some? {
      var b := MatchBareTail(t).value;
      MatchBareTailExact(t, b);
      assert t[0..] == t;
      BareTailStops(t, 0, z, b);
      assert false;
    }
  }

  /** The section expression with owners reads back the written heading
      and tail. */
  lemma FormatSectionMatches(l: Line)
    requires l.sectionName != [] && AllOf(l.sectionName, NoCloseBracket)
    requires l.sectionMinApprovers <= MaxInt
    requires l.spaces != [] && AllOf(l.spaces, Space)
    requires l.owners.Some? && CanonicalOwners(l.owners.value)
    requires AllOf(l.inlineComment, Dot)
    ensures MatchOwnedSection(FormatSectionHeading(l)) ==
            Some(OwnedSection(WrittenHead(l), WrittenTail(l.spaces, l.owners.value, l.inlineComment)))
  {
    var s := FormatSectionHeading(l);
    var h := WrittenHead(l);
    var t := l.spaces + JoinNames(l.owners.value) + FormatInlineComment(l.inlineComment);
    var w := WrittenTail(l.spaces, l.owners.value, l.inlineComment);
    FormatSectionHead(l);
    assert s[|HeadText(h)|..] == t;
    WrittenTailReads(l.spaces, l.owners.value, l.inlineComment);
    assert IsOwnedSection(s, OwnedSection(h, w));
    MatchOwnedSectionCorrect(s);
    assert IsOwnedTail(t, MatchOwnedSection(s).value.tail);
  }

  /** formatSectionHeading then parseSectionHeadLine: a heading with owners
      is read back as the same heading (a negative minimum becomes zero),
      and the parser moves to its section, which has valid users exactly
      when one of the owners is not invalid. */
  lemma FormatSectionRoundTrip(l: Line, lineNo: int, state: ParseState)
    requires l.kind == SectionHeading
    requires l.sectionName != [] && AllOf(l.sectionName, NoCloseBracket)
    requires l.sectionMinApprovers <= MaxInt
    requires l.spaces != [] && AllOf(l.spaces, Space)
    requires l.owners.Some? && CanonicalOwners(l.owners.value)
    requires AllOf(l.inlineComment, Dot)
    ensures var (read, next) := SectionHeadLineOf(FormatSectionHeading(l), lineNo, state);
            && read.kind == SectionHeading
            && read.sectionOptional == l.sectionOptional
            && read.sectionName == l.sectionName
            && read.sectionMinApprovers == (if l.sectionMinApprovers > 0 then l.sectionMinApprovers else 0)
            && read.spaces == l.spaces
            && read.owners == l.owners
            && read.inlineComment == l.inlineComment
            && read.lineNo == lineNo && read.raw == FormatSectionHeading(l)
            && next == ParseState(l.sectionName, HasValidOwner(l.owners))
  {
    FormatSectionNotBare(l);
    FormatSectionMatches(l);
    FormatMinApproversReads(l.sectionMinApprovers);
    var w := WrittenTail(l.spaces, l.owners.value, l.inlineComment);
    OwnersOfJoinNames(l.owners.value, if l.inlineComment == "" then "" else " ");
    assert w.ownerNames == JoinNames(l.owners.value) + (if l.inlineComment == "" then "" else " ");
  }

  // ---------------------------------------------------------------------
  // Parsed records written and read again

  /** The owners the parser reads from text without `#` are canonical. */
  lemma ParsedOwnersCanonical(ownerNames: string)
    requires AllOf(ownerNames, NoHash)
    ensures OwnersOf(ownerNames).Some? ==> CanonicalOwners(OwnersOf(ownerNames).value)
  {
    var tokens := Words(ownerNames);
    WordsShape(ownerNames);
    WordsWithin(ownerNames, NoHash);
    forall k | 0 <= k < |tokens|
      ensures IsToken(ParseOwners(tokens)[k].name) && ParseOwners(tokens)[k] == ParseOwner(ParseOwners(tokens)[k].name)
    {
      ParseOwnersAt(tokens, k);
      ParseOwnerClassifies(tokens[k]);
    }
  }

  /** A rule with owners that parseRuleLine reads, written by formatRule and
      read again in the same state, is the same record but for the text it
      was read from. Under a section with valid users this needs a pattern
      without `#` (see HashInPatternExample). */
  lemma ParsedRuleRoundTrip(line: string, lineNo: int, state: ParseState)
    ensures var l := ParseRuleLine(line, lineNo, state);
            l.kind == Rule && l.owners.Some? && (state.currentSectionHasValidUsers ==> AllOf(l.rulePattern, NoHash)) ==>
              ParseRuleLine(FormatRule(l), lineNo, state) == l.(raw := FormatRule(l))
  {
    var l := ParseRuleLine(line, lineNo, state);
    if l.kind == Rule && l.owners.Some? && (state.currentSectionHasValidUsers ==> AllOf(l.rulePattern, NoHash)) {
      MatchOwnedRuleCorrect(line);
      var r := MatchOwnedRule(line).value;
      ParsedOwnersCanonical(r.tail.ownerNames);
      FormatRuleRoundTrip(l, lineNo, state);
    }
  }

  /** The last name of the owners, or nothing for none. */
  function LastName(owners: seq<Owner>): string {
    if owners == [] then "" else owners[|owners| - 1].name
  }

  /** Whether a text ends with a character strings.TrimSpace removes. */
  predicate EndsInUniSpace(s: string) {
    s != [] && IsUnicodeSpace(s[|s| - 1])
  }

  /** The joined names end as the last name does. */
  lemma JoinNamesLast(owners: seq<Owner>)
    requires owners != [] && LastName(owners) != []
    ensures JoinNames(owners) != []
    ensures JoinNames(owners)[|JoinNames(owners)| - 1] == LastName(owners)[|LastName(owners)| - 1]
  {
  }

  /** A rule with owners that parseLine reads, written by formatRule and
      read again by parseLine in the same state, is the same record but for
      its text, and leaves the state alone. Two things can break this: a
      `#` in the pattern under a section with valid users (see
      HashInPatternExample), and a written line that ends in a character
      strings.TrimSpace removes but `\s` does not match, which only an
      empty comment can leave after the last owner name (see
      TrailingUniSpaceOwnerExample). */
  lemma ParsedLineRoundTrip(line: string, lineNo: int, state: ParseState)
    ensures var (l, next) := ParseLine(line, lineNo, state);
            l.kind == Rule && l.owners.Some? && (state.currentSectionHasValidUsers ==> AllOf(l.rulePattern, NoHash)) &&
            (l.inlineComment != "" || !EndsInUniSpace(LastName(l.owners.value))) ==>
              ParseLine(FormatRule(l), lineNo, state) == (l.(raw := FormatRule(l)), state)
  {
    var (l, next) := ParseLine(line, lineNo, state);
    var trimmed := TrimSpace(line);
    if l.kind == Rule {
      ParseLineDispatch(line, lineNo, state);
      assert IsRuleText(trimmed);
      assert (l, next) == (ParseRuleLine(trimmed, lineNo, state), state);
      TrimmedRuleRoundTrip(trimmed, lineNo, state);
    }
  }

  /** The rule path of ParsedLineRoundTrip, from the trimmed line. */
  lemma TrimmedRuleRoundTrip(trimmed: string, lineNo: int, state: ParseState)
    requires IsRuleText(trimmed) && !IsUnicodeSpace(trimmed[0]) && !IsUnicodeSpace(trimmed[|trimmed| - 1])
    ensures var l := ParseRuleLine(trimmed, lineNo, state);
            l.kind == Rule && l.owners.Some? && (state.currentSectionHasValidUsers ==> AllOf(l.rulePattern, NoHash)) &&
            (l.inlineComment != "" || !EndsInUniSpace(LastName(l.owners.value))) ==>
              ParseLine(FormatRule(l), lineNo, state) == (l.(raw := FormatRule(l)), state)
  {
    var l := ParseRuleLine(trimmed, lineNo, state);
    if l.kind == Rule && l.owners.Some? && (state.currentSectionHasValidUsers ==> AllOf(l.rulePattern, NoHash)) &&
       (l.inlineComment != "" || !EndsInUniSpace(LastName(l.owners.value))) {
      ParsedRuleRoundTrip(trimmed, lineNo, state);
      assert MatchOwnedRule(trimmed).Some?;
      var r := MatchOwnedRule(trimmed).value;
      MatchOwnedRuleCorrect(trimmed);
      OwnersOfNames(r.tail.ownerNames);
      assert l.owners == OwnersOf(r.tail.ownerNames);
      assert LastName(l.owners.value) == l.owners.value[|l.owners.value| - 1].name;
      WrittenRuleTrimmed(trimmed, l, r);
      ParseLineOfRuleText(FormatRule(l), lineNo, state);
    }
  }

  /** A rule with owners read from a trimmed line is written as a trimmed
      line that parseLine sends to the rule parser again. */
  lemma WrittenRuleTrimmed(trimmed: string, l: Line, r: OwnedRule)
    requires IsRuleText(trimmed) && !IsUnicodeSpace(trimmed[0]) && !IsUnicodeSpace(trimmed[|trimmed| - 1])
    requires IsOwnedRule(trimmed, r)
    requires l.rulePattern == r.filesPattern && l.spaces == r.tail.spaces && l.inlineComment == r.tail.comment.GetOr("")
    requires l.owners.Some? && LastName(l.owners.value) != []
    requires l.inlineComment != "" || !EndsInUniSpace(LastName(l.owners.value))
    ensures TrimSpace(FormatRule(l)) == FormatRule(l) && IsRuleText(FormatRule(l))
  {
    var w := FormatRule(l);
    var p := r.filesPattern;
    var rest := l.spaces + JoinNames(l.owners.value) + FormatInlineComment(l.inlineComment);
    assert w == p + rest;
    assert rest[0] == l.spaces[0];
    assert In(l.spaces[0], Space);
    RuleTextSpace(p, rest);
    assert w[0] == trimmed[0] by {
      assert w[0] == p[0];
      assert trimmed[0] == p[0];
    }
    FormatRuleLast(l);
    if l.inlineComment != "" {
      CommentLast(trimmed, r);
    }
    TrimSpaceOfTrimmed(w);
  }

  /** A written rule with owners ends as its comment does, or as its last
      owner name when it has no comment. */
  lemma FormatRuleLast(l: Line)
    requires l.owners.Some? && LastName(l.owners.value) != []
    ensures var w := FormatRule(l);
            var n := LastName(l.owners.value);
            && w != []
            && w[|w| - 1] == if l.inlineComment != "" then l.inlineComment[|l.inlineComment| - 1] else n[|n| - 1]
  {
    var j := JoinNames(l.owners.value);
    JoinNamesLast(l.owners.value);
    if l.inlineComment != "" {
      assert FormatRule(l) == l.rulePattern + l.spaces + j + " #" + l.inlineComment;
    } else {
      assert FormatRule(l) == l.rulePattern + l.spaces + j;
    }
  }

  /** A rule read with a non-empty comment ends as the comment does. */
  lemma CommentLast(s: string, r: OwnedRule)
    requires IsOwnedRule(s, r) && r.tail.comment.Some? && r.tail.comment.value != ""
    ensures s[|s| - 1] == r.tail.comment.value[|r.tail.comment.value| - 1]
  {
    var c := r.tail.comment.value;
    assert s == r.filesPattern + (r.tail.spaces + r.tail.ownerNames + "#" + c);
  }

  /** An owner name followed by a character that strings.TrimSpace removes
      but `\s` does not match (U+00A0, `\v`, U+0085, U+2000 to U+200A, ...)
      and by an empty comment, as in `a @x` U+00A0 `#`: the character is
      part of the owner's name; the written line drops the `#`, so
      strings.TrimSpace drops the character when the line is read again,
      and the owner comes back without it. */
  lemma TrailingUniSpaceOwner(pattern: string, name: string, u: char, lineNo: int, state: ParseState)
    requires IsRuleText(pattern) && AllOf(pattern, NonSpace) && !IsUnicodeSpace(pattern[0])
    requires name != [] && AllOf(name, NonSpace) && AllOf(name, NoHash) && !IsUnicodeSpace(name[|name| - 1])
    requires IsUnicodeSpace(u) && !IsReSpace(u) && u != '#'
    requires !state.currentSectionHasValidUsers
    ensures var l := ParseLine(pattern + " " + name + [u] + "#", lineNo, state).0;
            && l.kind == Rule && l.owners == Some([ParseOwner(name + [u])]) && l.inlineComment == ""
            && FormatRule(l) == pattern + " " + name + [u]
            && ParseLine(FormatRule(l), lineNo, state).0.owners == Some([ParseOwner(name)])
  {
    var named := name + [u];
    var l := Line(Rule, lineNo, pattern + " " + name + [u] + "#", pattern, state.currentSection, false, "", 0, " ",
                  Some([ParseOwner(named)]), "");
    TrailingUniSpaceRead(pattern, name, u, lineNo, state);
    var w := pattern + " " + name + [u];
    assert FormatRule(l) == w by {
      assert JoinNames([ParseOwner(named)]) == named;
      assert w == pattern + " " + named + "";
    }
    TrailingUniSpaceReread(pattern, name, u, lineNo, state);
  }

  /** The first reading in TrailingUniSpaceOwner. */
  lemma TrailingUniSpaceRead(pattern: string, name: string, u: char, lineNo: int, state: ParseState)
    requires IsRuleText(pattern) && AllOf(pattern, NonSpace) && !IsUnicodeSpace(pattern[0])
    requires name != [] && AllOf(name, NonSpace) && AllOf(name, NoHash)
    requires !IsReSpace(u) && u != '#'
    requires !state.currentSectionHasValidUsers
    ensures var line := pattern + " " + name + [u] + "#";
            ParseLine(line, lineNo, state).0 ==
            Line(Rule, lineNo, line, pattern, state.currentSection, false, "", 0, " ", Some([ParseOwner(name + [u])]), "")
  {
    var named := name + [u];
    assert AllOf(named, NonSpace) && AllOf(named, NoHash) by {
      forall k | 0 <= k < |named| ensures In(named[k], NonSpace) && In(named[k], NoHash) {
        if k < |name| {
          assert named[k] == name[k];
        }
      }
    }
    var line := pattern + " " + name + [u] + "#";
    assert line == pattern + (" " + named + "#");
    assert line == pattern + " " + named + CommentText(Some(""));
    assert line[0] == pattern[0] && line[|line| - 1] == '#';
    RuleTextSpace(pattern, " " + named + "#");
    OwnedRuleRead(line, pattern, named, Some(""));
    ParseOwnedRuleLine(line, lineNo, state);
  }

  /** The second reading in TrailingUniSpaceOwner. */
  lemma TrailingUniSpaceReread(pattern: string, name: string, u: char, lineNo: int, state: ParseState)
    requires IsRuleText(pattern) && AllOf(pattern, NonSpace) && !IsUnicodeSpace(pattern[0])
    requires name != [] && AllOf(name, NonSpace) && AllOf(name, NoHash) && !IsUnicodeSpace(name[|name| - 1])
    requires IsUnicodeSpace(u)
    requires !state.currentSectionHasValidUsers
    ensures ParseLine(pattern + " " + name + [u], lineNo, state).0.owners == Some([ParseOwner(name)])
  {
    var w := pattern + " " + name + [u];
    var v := pattern + " " + name;
    assert TrimSpace(w) == v by {
      assert w == v + [u];
      assert v[|v| - 1] == name[|name| - 1] && v[0] == pattern[0];
      TrimSpaceTrailing(v, [u]);
    }
    assert IsRuleText(v) by {
      RuleTextSpace(pattern, " " + name);
      assert v == pattern + (" " + name);
    }
    ParseLineOfRuleText(w, lineNo, state);
    assert v == pattern + " " + name + CommentText(None);
    OwnedRuleRead(v, pattern, name, None);
  }

  /** A rule text followed by anything but `[` is still a rule text. */
  lemma RuleTextSpace(pattern: string, rest: string)
    requires IsRuleText(pattern) && rest != [] && rest[0] != '['
    ensures IsRuleText(pattern + rest)
  {
    var s := pattern + rest;
    assert s[0] == pattern[0];
    if |pattern| == 1 {
      assert s[1] == rest[0];
    } else {
      assert s[1] == pattern[1];
    }
  }

  /** A trimmed rule text that the rule expression reads, outside a section
      with valid users, is parsed from that reading. */
  lemma ParseOwnedRuleLine(line: string, lineNo: int, state: ParseState)
    requires IsRuleText(line) && !IsUnicodeSpace(line[0]) && !IsUnicodeSpace(line[|line| - 1])
    requires !state.currentSectionHasValidUsers && MatchOwnedRule(line).Some?
    ensures var r := MatchOwnedRule(line).value;
            ParseLine(line, lineNo, state).0 ==
            Line(Rule, lineNo, line, r.filesPattern, state.currentSection, false, "", 0,
                 r.tail.spaces, OwnersOf(r.tail.ownerNames), r.tail.comment.GetOr(""))
  {
    TrimSpaceOfTrimmed(line);
  }

  /** A reading of a rule whose pattern is followed by one white space
      and a character that is not has a single space. */
  lemma OneSpaceTail(s: string, m: OwnedRule, x: char)
    requires IsOwnedRule(s, m) && |m.filesPattern| + 1 < |s| && s[|m.filesPattern| + 1] == x && !IsReSpace(x)
    ensures |m.tail.spaces| == 1
  {
    var t := s[|m.filesPattern|..];
    forall i | 0 <= i < |m.tail.spaces| ensures t[i] == m.tail.spaces[i] {
    }
    assert t[1] == x;
  }

  /** parseLine sends a line whose trimmed text is a rule text to the rule
      parser. */
  lemma ParseLineOfRuleText(w: string, lineNo: int, state: ParseState)
    requires IsRuleText(TrimSpace(w))
    ensures ParseLine(w, lineNo, state) == (ParseRuleLine(TrimSpace(w), lineNo, state), state)
  {
  }

  /** How the rule expression reads a pattern, one space, a name and a
      comment. */
  lemma OwnedRuleRead(s: string, pattern: string, name: string, c: Option<string>)
    requires pattern != [] && AllOf(pattern, NonSpace)
    requires name != [] && AllOf(name, NonSpace) && AllOf(name, NoHash) && CommentOk(c)
    requires s == pattern + " " + name + CommentText(c)
    ensures MatchOwnedRule(s) == Some(OwnedRule(pattern, OwnedTail(" ", name, c)))
    ensures OwnersOf(name) == Some([ParseOwner(name)])
  {
    var r := OwnedRule(pattern, OwnedTail(" ", name, c));
    assert s[|pattern|..] == " " + name + CommentText(c);
    assert IsOwnedRule(s, r);
    MatchOwnedRuleCorrect(s);
    OneSpaceTail(s, MatchOwnedRule(s).value, name[0]);
    WordsOfWord(name);
    ParseOwnersAt([name], 0);
    assert ParseOwners([name]) == [ParseOwner(name)];
  }

  /** A section heading with owners that parseSectionHeadLine reads, written
      by formatSectionHeading and read again, is the same record but for
      the text, and moves the parser to the same state. */
  lemma ParsedSectionRoundTrip(line: string, lineNo: int, state: ParseState)
    ensures var (l, next) := SectionHeadLineOf(line, lineNo, state);
            l.kind == SectionHeading && l.owners.Some? ==>
              SectionHeadLineOf(FormatSectionHeading(l), lineNo, state) == (l.(raw := FormatSectionHeading(l)), next)
  {
    var (l, next) := SectionHeadLineOf(line, lineNo, state);
    if l.kind == SectionHeading && l.owners.Some? {
      MatchOwnedSectionCorrect(line);
      var x := MatchOwnedSection(line).value;
      ParsedOwnersCanonical(x.tail.ownerNames);
      FormatSectionRoundTrip(l, lineNo, state);
    }
  }

  // ---------------------------------------------------------------------
  // Whole trees

  /** A record written back as it was read. */
  predicate Echoed(l: Line) {
    l.kind != Rule && l.kind != IgnorableComment && !(l.kind == SectionHeading && l.owners.Some?)
  }

  /** The text each record was read from, in order. */
  function Raws(cst: seq<Line>): seq<string> {
    if cst == [] then []
    else Raws(cst[..|cst| - 1]) + [cst[|cst| - 1].raw]
  }

  /** Records that are written back as read give their lines, each ended
      by a line feed. */
  lemma {:induction false} RenderEchoed(cst: seq<Line>)
    requires forall k :: 0 <= k < |cst| ==> Echoed(cst[k])
    ensures Render(cst) == Unlines(Raws(cst))
  {
    if cst != [] {
      var init := cst[..|cst| - 1];
      forall k | 0 <= k < |init| ensures Echoed(init[k]) {
        assert init[k] == cst[k];
      }
      RenderEchoed(init);
      UnlinesSnoc(Raws(init), cst[|cst| - 1].raw);
    }
  }

  /** Ignorable comments leave no trace, and nothing else is dropped: the
      written tree is empty exactly when every record is an ignorable
      comment. */
  lemma {:induction false} RenderEmpty(cst: seq<Line>)
    ensures Render(cst) == [] <==> forall k :: 0 <= k < |cst| ==> cst[k].kind == IgnorableComment
  {
    if cst != [] {
      var init := cst[..|cst| - 1];
      RenderEmpty(init);
      assert forall k :: 0 <= k < |init| ==> init[k] == cst[k];
      var last := cst[|cst| - 1];
      if last.kind != IgnorableComment {
        assert LineString(last) != [];
      }
    }
  }

  lemma {:induction false} RawsAt(cst: seq<Line>, k: nat)
    requires k < |cst|
    ensures |Raws(cst)| == |cst|
    ensures Raws(cst)[k] == cst[k].raw
  {
    var init := cst[..|cst| - 1];
    if init != [] {
      RawsAt(init, if k < |init| then k else 0);
    } else {
      assert Raws(init) == [];
    }
    if k < |init| {
      assert init[k] == cst[k];
    }
  }

  /** Lines each followed by a line feed are the lines joined, and one more
      line feed. */
  lemma {:induction false} UnlinesJoin(lines: seq<string>)
    requires lines != []
    ensures Unlines(lines) == JoinLines(lines) + "\n"
  {
    if |lines| > 1 {
      UnlinesJoin(lines[1..]);
    } else {
      assert lines[1..] == [];
    }
  }

  /** Lines that are neither rules nor ignorable comments and whose records
      are written back as read. */
  predicate EchoedLines(lines: seq<string>) {
    forall k :: 0 <= k < |lines| ==> !IsRuleText(TrimSpace(lines[k])) && Echoed(ParseLines(lines).0[k])
  }

  /** Such lines are written back each with a line feed. */
  lemma RenderEchoedLines(lines: seq<string>)
    requires EchoedLines(lines)
    ensures Render(ParseLines(lines).0) == Unlines(lines)
  {
    var cst := ParseLines(lines).0;
    RenderEchoed(cst);
    if lines != [] {
      RawsAt(cst, 0);
    } else {
      assert Raws(cst) == [];
    }
    forall k | 0 <= k < |lines| ensures Raws(cst)[k] == lines[k] {
      RawsAt(cst, k);
      ParsedRaw(lines, k);
    }
    assert Raws(cst) == lines;
  }

  /** Reading a file and writing it again changes nothing but adds a final
      line feed when no line is a rule or an ignorable comment and no
      section heading names owners. */
  lemma ParseThenFormatEchoes(content: string)
    requires EchoedLines(SplitLines(content))
    ensures Render(ParseLines(SplitLines(content)).0) == content + "\n"
  {
    var lines := SplitLines(content);
    RenderEchoedLines(lines);
    UnlinesJoin(lines);
  }

  /** A line off the rule path is kept as it is in its record. */
  lemma ParsedRaw(lines: seq<string>, k: nat)
    requires k < |lines| && !IsRuleText(TrimSpace(lines[k]))
    ensures ParseLines(lines).0[k].raw == lines[k]
  {
    ParseLinesRecord(lines, k);
    ParseLineDispatch(lines[k], k + 1, StateAfter(ParseLines(lines).0[..k]));
  }

  /** An empty tree writes the header comment alone. */
  lemma FormatEmpty(headerComment: string)
    ensures headerComment + Render([]) == headerComment
  {
    assert headerComment + [] == headerComment;
  }
}
