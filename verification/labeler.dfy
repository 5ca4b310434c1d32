/** The labeler.yml renderer of internal/things/format_labeler.go: for each
    team, the patterns of the rules it owns, rewritten as globs, under a
    `changed-files` entry. */
module Labeler {
  import opened Wrappers
  import opened GoText
  import opened Codeowners

  // ---------------------------------------------------------------------
  // transform

  predicate StartsWithStar(s: string) {
    "*" <= s
  }

  predicate EndsWithSlash(s: string) {
    s != [] && s[|s| - 1] == '/'
  }

  /** transform: "*" becomes "**"; a value starting with `*` is put in
      double quotes; `**` is appended when the original pattern ends with
      a slash. */
  function Transform(pattern: string): string {
    var starred := if pattern == "*" then "**" else pattern;
    var quoted := if StartsWithStar(starred) then "\"" + starred + "\"" else starred;
    if EndsWithSlash(pattern) then quoted + "**" else quoted
  }

  /** The cases the comments of transform describe: "*" becomes `"**"`
      with the quotes, any other pattern starting with `*` is quoted, a
      pattern ending with a slash gets `**` after any quoting, and any
      other pattern is kept. */
  lemma TransformCases(pattern: string)
    ensures pattern == "*" ==> Transform(pattern) == "\"**\""
    ensures StartsWithStar(pattern) && pattern != "*" && !EndsWithSlash(pattern) ==>
              Transform(pattern) == "\"" + pattern + "\""
    ensures StartsWithStar(pattern) && EndsWithSlash(pattern) ==>
              Transform(pattern) == "\"" + pattern + "\"" + "**"
    ensures !StartsWithStar(pattern) && EndsWithSlash(pattern) ==> Transform(pattern) == pattern + "**"
    ensures !StartsWithStar(pattern) && !EndsWithSlash(pattern) ==> Transform(pattern) == pattern
  {
    if pattern == "*" {
      assert StartsWithStar("**");
      assert !EndsWithSlash("*");
    }
  }

  /** A rewritten pattern never starts with `*` and never ends with a
      slash, and those are exactly the patterns transform keeps. */
  lemma TransformImage(pattern: string)
    ensures !StartsWithStar(Transform(pattern)) && !EndsWithSlash(Transform(pattern))
    ensures Transform(pattern) == pattern <==> !StartsWithStar(pattern) && !EndsWithSlash(pattern)
  {
    var t := Transform(pattern);
    TransformCases(pattern);
    if StartsWithStar(pattern) {
      assert t[0] == '"';
    } else if EndsWithSlash(pattern) {
      assert |t| == |pattern| + 2;
      assert t[0] == pattern[0];
    }
  }

  /** Rewriting a rewritten pattern changes nothing more. */
  lemma TransformIdempotent(pattern: string)
    ensures Transform(Transform(pattern)) == Transform(pattern)
  {
    TransformImage(pattern);
    TransformImage(Transform(pattern));
  }

  /** "*" and "**" mean all files, a pattern ending in a slash and the same
      pattern followed by two stars all files under it: each pair is
      rewritten to the same glob. */
  lemma TransformExamples()
    ensures Transform("*") == Transform("**") == "\"**\""
    ensures Transform("src/") == Transform("src/**") == "src/**"
    ensures Transform("*.go") == "\"*.go\""
  {
    TransformCases("*");
    TransformCases("**");
    TransformCases("src/");
    TransformCases("src/**");
    TransformCases("*.go");
  }

  // ---------------------------------------------------------------------
  // getPatternsForTeam

  /** One copy of `pattern` for each owner named `name`, in owner order. */
  function OwnerPatterns(owners: seq<Owner>, name: string, pattern: string): seq<string> {
    if owners == [] then []
    else
      OwnerPatterns(owners[..|owners| - 1], name, pattern) +
      (if owners[|owners| - 1].name == name then [pattern] else [])
  }

  /** What one record contributes: its rewritten pattern once per owner
      named "@" + team, if it is a rule. */
  function LinePatterns(team: string, l: Line): seq<string> {
    if l.kind == Rule then OwnerPatterns(l.owners.GetOr([]), "@" + team, Transform(l.rulePattern)) else []
  }

  /** The rewritten patterns of the team's rules, in record order. */
  function PatternsForTeam(team: string, lines: seq<Line>): seq<string> {
    if lines == [] then []
    else PatternsForTeam(team, lines[..|lines| - 1]) + LinePatterns(team, lines[|lines| - 1])
  }

  /** getPatternsForTeam. */
  method GetPatternsForTeam(team: string, lines: seq<Line>) returns (patterns: seq<string>)
    ensures patterns == PatternsForTeam(team, lines)
  {
    patterns := [];
    var name := "@" + team;
    for i := 0 to |lines|
      invariant patterns == PatternsForTeam(team, lines[..i])
    {
      var line := lines[i];
      var before := patterns;
      if line.kind == Rule {
        var owners := line.owners.GetOr([]);
        var pattern := Transform(line.rulePattern);
        for j := 0 to |owners|
          invariant patterns == before + OwnerPatterns(owners[..j], name, pattern)
        {
          OwnerPatternsSnoc(owners, j, name, pattern);
          if owners[j].name == name {
            patterns := patterns + [pattern];
          }
        }
        assert owners[..|owners|] == owners;
      }
      PatternsForTeamSnoc(team, lines, i);
    }
    assert lines[..|lines|] == lines;
  }

  lemma OwnerPatternsSnoc(owners: seq<Owner>, j: nat, name: string, pattern: string)
    requires j < |owners|
    ensures OwnerPatterns(owners[..j + 1], name, pattern) ==
            OwnerPatterns(owners[..j], name, pattern) + (if owners[j].name == name then [pattern] else [])
  {
    assert owners[..j + 1][..j] == owners[..j];
  }

  lemma PatternsForTeamSnoc(team: string, lines: seq<Line>, i: nat)
    requires i < |lines|
    ensures PatternsForTeam(team, lines[..i + 1]) == PatternsForTeam(team, lines[..i]) + LinePatterns(team, lines[i])
  {
    assert lines[..i + 1][..i] == lines[..i];
  }

  /** The record is a rule with an owner named "@" + team. */
  predicate RuleOwnedBy(l: Line, team: string) {
    l.kind == Rule && exists j :: 0 <= j < |l.owners.GetOr([])| && l.owners.GetOr([])[j].name == "@" + team
  }

  lemma {:induction false} OwnerPatternsMembers(owners: seq<Owner>, name: string, pattern: string)
    ensures forall x :: x in OwnerPatterns(owners, name, pattern) <==>
              x == pattern && exists j :: 0 <= j < |owners| && owners[j].name == name
  {
    if owners != [] {
      var init := owners[..|owners| - 1];
      OwnerPatternsMembers(init, name, pattern);
      forall j | 0 <= j < |init| ensures owners[j] == init[j] { }
    }
  }

  lemma LinePatternsMembers(team: string, l: Line)
    ensures forall x :: x in LinePatterns(team, l) <==> RuleOwnedBy(l, team) && x == Transform(l.rulePattern)
  {
    OwnerPatternsMembers(l.owners.GetOr([]), "@" + team, Transform(l.rulePattern));
  }

  /** The team's patterns are exactly the rewritten patterns of the rules
      naming "@" + team among their owners. */
  lemma {:induction false} PatternsForTeamMembers(team: string, lines: seq<Line>)
    ensures forall x :: x in PatternsForTeam(team, lines) <==>
              exists k :: 0 <= k < |lines| && RuleOwnedBy(lines[k], team) && x == Transform(lines[k].rulePattern)
  {
    if lines != [] {
      var n := |lines| - 1;
      var init := lines[..n];
      PatternsForTeamMembers(team, init);
      LinePatternsMembers(team, lines[n]);
      forall x | x in PatternsForTeam(team, lines)
        ensures exists k :: 0 <= k < |lines| && RuleOwnedBy(lines[k], team) && x == Transform(lines[k].rulePattern)
      {
        if x in PatternsForTeam(team, init) {
          var k :| 0 <= k < n && RuleOwnedBy(init[k], team) && x == Transform(init[k].rulePattern);
          assert lines[k] == init[k];
        }
      }
      forall k | 0 <= k < n && RuleOwnedBy(lines[k], team)
        ensures Transform(lines[k].rulePattern) in PatternsForTeam(team, lines)
      {
        assert lines[k] == init[k];
      }
    }
  }

  /** A team has no patterns exactly when no rule names "@" + team. */
  lemma PatternsForTeamEmpty(team: string, lines: seq<Line>)
    ensures PatternsForTeam(team, lines) == [] <==> forall k :: 0 <= k < |lines| ==> !RuleOwnedBy(lines[k], team)
  {
    PatternsForTeamMembers(team, lines);
    if PatternsForTeam(team, lines) != [] {
      assert PatternsForTeam(team, lines)[0] in PatternsForTeam(team, lines);
    }
    forall k | 0 <= k < |lines| && RuleOwnedBy(lines[k], team) ensures PatternsForTeam(team, lines) != [] {
      assert Transform(lines[k].rulePattern) in PatternsForTeam(team, lines);
    }
  }

  /** Records are visited in order: the patterns of two runs of records
      are those of the first followed by those of the second. */
  lemma {:induction false} PatternsForTeamAppend(team: string, a: seq<Line>, b: seq<Line>)
    ensures PatternsForTeam(team, a + b) == PatternsForTeam(team, a) + PatternsForTeam(team, b)
  {
    if b != [] {
      var b' := b[..|b| - 1];
      PatternsForTeamAppend(team, a, b');
      assert (a + b)[..|a + b| - 1] == a + b';
    } else {
      assert a + b == a;
    }
  }

  // ---------------------------------------------------------------------
  // FormatCSTAsLabelerYML

  /** A team and its patterns, as one block of the output. */
  datatype TeamBlock = TeamBlock(team: string, patterns: seq<string>)

  const ChangedFiles: string := "  - changed-files:"
  const ItemPrefix: string := "    - any-glob-to-any-file: "

  function ItemLines(patterns: seq<string>): seq<string> {
    if patterns == [] then [] else [ItemPrefix + patterns[0]] + ItemLines(patterns[1..])
  }

  /** A block's lines: the team with a colon, the changed-files entry, one
      item per pattern and an empty line. */
  function BlockLines(b: TeamBlock): seq<string> {
    [b.team + ":", ChangedFiles] + ItemLines(b.patterns) + [""]
  }

  function BlocksLines(blocks: seq<TeamBlock>): seq<string> {
    if blocks == [] then [] else BlockLines(blocks[0]) + BlocksLines(blocks[1..])
  }

  /** The blocks written for the teams in `order`: one per team with at
      least one pattern, in that order. */
  function TeamBlocks(lines: seq<Line>, order: seq<string>): seq<TeamBlock> {
    if order == [] then []
    else
      var patterns := PatternsForTeam(order[0], lines);
      (if patterns == [] then [] else [TeamBlock(order[0], patterns)]) + TeamBlocks(lines, order[1..])
  }

  /** The output for a header and the teams in `order`. */
  function LabelerYml(header: string, lines: seq<Line>, order: seq<string>): string {
    header + Unlines(BlocksLines(TeamBlocks(lines, order)))
  }

  lemma {:induction false} ItemLinesSnoc(patterns: seq<string>, p: string)
    ensures ItemLines(patterns + [p]) == ItemLines(patterns) + [ItemPrefix + p]
  {
    if patterns != [] {
      ItemLinesSnoc(patterns[1..], p);
      assert (patterns + [p])[1..] == patterns[1..] + [p];
    }
  }

  lemma {:induction false} UnlinesAppend(a: seq<string>, b: seq<string>)
    ensures Unlines(a + b) == Unlines(a) + Unlines(b)
  {
    if a != [] {
      UnlinesAppend(a[1..], b);
      assert (a + b)[1..] == a[1..] + b;
    } else {
      assert a + b == b;
    }
  }

  lemma {:induction false} BlocksLinesAppend(a: seq<TeamBlock>, b: seq<TeamBlock>)
    ensures BlocksLines(a + b) == BlocksLines(a) + BlocksLines(b)
  {
    if a != [] {
      BlocksLinesAppend(a[1..], b);
      assert (a + b)[1..] == a[1..] + b;
    } else {
      assert a + b == b;
    }
  }

  lemma {:induction false} TeamBlocksSnoc(lines: seq<Line>, order: seq<string>, team: string)
    ensures TeamBlocks(lines, order + [team]) ==
            TeamBlocks(lines, order) + TeamBlocks(lines, [team])
  {
    if order != [] {
      TeamBlocksSnoc(lines, order[1..], team);
      assert (order + [team])[1..] == order[1..] + [team];
    } else {
      assert order + [team] == [team];
    }
  }

  /** The text of one block, built the way the loop body builds it. */
  method WriteBlock(team: string, patterns: seq<string>) returns (text: string)
    ensures text == Unlines(BlockLines(TeamBlock(team, patterns)))
  {
    text := team + ":\n";
    text := text + "  - changed-files:\n";
    assert ItemLines(patterns[..0]) == [];
    assert Unlines([ChangedFiles]) == ChangedFiles + "\n";
    assert [team + ":", ChangedFiles] + ItemLines(patterns[..0]) == [team + ":", ChangedFiles];
    for j := 0 to |patterns|
      invariant text == Unlines([team + ":", ChangedFiles] + ItemLines(patterns[..j]))
    {
      ItemLinesSnoc(patterns[..j], patterns[j]);
      assert patterns[..j + 1] == patterns[..j] + [patterns[j]];
      UnlinesSnoc([team + ":", ChangedFiles] + ItemLines(patterns[..j]), ItemPrefix + patterns[j]);
      assert [team + ":", ChangedFiles] + ItemLines(patterns[..j + 1]) ==
             [team + ":", ChangedFiles] + ItemLines(patterns[..j]) + [ItemPrefix + patterns[j]];
      text := text + (ItemPrefix + patterns[j]) + "\n";
    }
    assert patterns[..|patterns|] == patterns;
    UnlinesSnoc([team + ":", ChangedFiles] + ItemLines(patterns), "");
    text := text + "\n";
  }

  /** FormatCSTAsLabelerYML, visiting the teams in `order` (Go visits a
      map in an unspecified order; `order` stands for it and lists every
      team once). */
  method FormatLabeler(lines: seq<Line>, teamMap: map<string, seq<string>>, order: seq<string>, header: string)
    returns (output: string)
    requires forall team :: team in teamMap <==> team in order
    requires forall i, j :: 0 <= i < j < |order| ==> order[i] != order[j]
    ensures output == LabelerYml(header, lines, order)
    ensures header <= output
    ensures teamMap == map[] ==> output == header
  {
    output := header;
    for i := 0 to |order|
      invariant output == header + Unlines(BlocksLines(TeamBlocks(lines, order[..i])))
    {
      var team := order[i];
      var patterns := GetPatternsForTeam(team, lines);
      LabelerYmlSnoc(header, lines, order, i);
      if |patterns| > 0 {
        var text := WriteBlock(team, patterns);
        output := output + text;
      }
    }
    assert order[..|order|] == order;
    if order != [] {
      assert order[0] in teamMap;
    }
  }

  /** One more team in the order appends its block, if it has patterns. */
  lemma LabelerYmlSnoc(header: string, lines: seq<Line>, order: seq<string>, i: nat)
    requires i < |order|
    ensures var patterns := PatternsForTeam(order[i], lines);
            header + Unlines(BlocksLines(TeamBlocks(lines, order[..i + 1]))) ==
            header + Unlines(BlocksLines(TeamBlocks(lines, order[..i]))) +
            (if patterns == [] then "" else Unlines(BlockLines(TeamBlock(order[i], patterns))))
  {
    var team := order[i];
    var prev := TeamBlocks(lines, order[..i]);
    var one := TeamBlocks(lines, [team]);
    assert TeamBlocks(lines, order[..i + 1]) == prev + one by {
      assert order[..i + 1] == order[..i] + [team];
      TeamBlocksSnoc(lines, order[..i], team);
    }
    assert Unlines(BlocksLines(prev + one)) == Unlines(BlocksLines(prev)) + Unlines(BlocksLines(one)) by {
      BlocksLinesAppend(prev, one);
      UnlinesAppend(BlocksLines(prev), BlocksLines(one));
    }
    TeamBlockText(lines, team);
  }

  /** The text of a single team's blocks: its block, or nothing. */
  lemma TeamBlockText(lines: seq<Line>, team: string)
    ensures var patterns := PatternsForTeam(team, lines);
            Unlines(BlocksLines(TeamBlocks(lines, [team]))) ==
            (if patterns == [] then "" else Unlines(BlockLines(TeamBlock(team, patterns))))
  {
    var patterns := PatternsForTeam(team, lines);
    assert [team][1..] == [];
    if patterns != [] {
      var b := TeamBlock(team, patterns);
      assert TeamBlocks(lines, [team]) == [b] + [];
      assert BlocksLines([b]) == BlockLines(b) by {
        assert [b][1..] == [];
        assert BlockLines(b) + [] == BlockLines(b);
      }
    } else {
      assert TeamBlocks(lines, [team]) == [] + [];
    }
  }

  /** Exactly the teams with at least one pattern get a block, holding
      their patterns. */
  lemma {:induction false} TeamBlocksMembers(lines: seq<Line>, order: seq<string>)
    ensures forall b :: b in TeamBlocks(lines, order) <==>
              b.team in order && b.patterns == PatternsForTeam(b.team, lines) && b.patterns != []
  {
    if order != [] {
      TeamBlocksMembers(lines, order[1..]);
      assert order == [order[0]] + order[1..];
    }
  }

  // ---------------------------------------------------------------------
  // Reading the output back

  /** The item lines at the front of `ls`, without their prefix, and the
      lines after them. */
  function ReadItems(ls: seq<string>): (r: (seq<string>, seq<string>))
    ensures |r.1| <= |ls|
  {
    if ls != [] && ItemPrefix <= ls[0] then
      var rest := ReadItems(ls[1..]);
      ([ls[0][|ItemPrefix|..]] + rest.0, rest.1)
    else ([], ls)
  }

  /** A reader for the blocks of the output: a line ending with a colon
      names the team, the changed-files line follows, then the items, then
      an empty line. */
  function ReadBlocks(ls: seq<string>): Option<seq<TeamBlock>>
    decreases |ls|
  {
    if ls == [] then Some([])
    else if |ls| < 2 || ls[0] == [] || ls[0][|ls[0]| - 1] != ':' || ls[1] != ChangedFiles then None
    else
      var items := ReadItems(ls[2..]);
      if items.1 == [] || items.1[0] != "" then None
      else
        match ReadBlocks(items.1[1..])
        case None => None
        case Some(blocks) => Some([TeamBlock(ls[0][..|ls[0]| - 1], items.0)] + blocks)
  }

  lemma {:induction false} ReadItemsOf(patterns: seq<string>, tail: seq<string>)
    requires tail != [] && tail[0] == ""
    ensures ReadItems(ItemLines(patterns) + tail) == (patterns, tail)
  {
    if patterns != [] {
      ReadItemsOf(patterns[1..], tail);
      var ls := ItemLines(patterns) + tail;
      assert ls[0] == ItemPrefix + patterns[0];
      assert ItemPrefix <= ls[0];
      assert ls[1..] == ItemLines(patterns[1..]) + tail;
      assert ls[0][|ItemPrefix|..] == patterns[0];
      assert patterns == [patterns[0]] + patterns[1..];
    } else {
      assert ItemLines(patterns) + tail == tail;
    }
  }

  /** A block in front of other lines is read, then the rest. */
  lemma ReadBlockOf(b: TeamBlock, rest: seq<string>)
    ensures ReadBlocks(BlockLines(b) + rest) ==
            if ReadBlocks(rest).None? then None else Some([b] + ReadBlocks(rest).value)
  {
    var ls := BlockLines(b) + rest;
    assert ls == [b.team + ":", ChangedFiles] + (ItemLines(b.patterns) + ([""] + rest));
    assert ls[2..] == ItemLines(b.patterns) + ([""] + rest);
    ReadItemsOf(b.patterns, [""] + rest);
    assert ([""] + rest)[1..] == rest;
    assert (b.team + ":")[..|b.team|] == b.team;
  }

  /** Every block is read back as it was written, whatever the team and
      pattern texts (at the level of lines). */
  lemma {:induction false} ReadBlocksOf(blocks: seq<TeamBlock>)
    ensures ReadBlocks(BlocksLines(blocks)) == Some(blocks)
  {
    if blocks != [] {
      ReadBlocksOf(blocks[1..]);
      ReadBlockOf(blocks[0], BlocksLines(blocks[1..]));
      assert blocks == [blocks[0]] + blocks[1..];
    }
  }

  /** Line feeds appear only at line ends when no team name and no rule
      pattern holds one. */
  lemma BlocksOneLine(lines: seq<Line>, order: seq<string>)
    requires forall k :: 0 <= k < |order| ==> '\n' !in order[k]
    requires forall k :: 0 <= k < |lines| ==> '\n' !in lines[k].rulePattern
    ensures forall k :: 0 <= k < |BlocksLines(TeamBlocks(lines, order))| ==> '\n' !in BlocksLines(TeamBlocks(lines, order))[k]
  {
    var blocks := TeamBlocks(lines, order);
    TeamBlocksMembers(lines, order);
    forall b | b in blocks ensures forall x :: x in BlockLines(b) ==> '\n' !in x {
      PatternsForTeamMembers(b.team, lines);
      forall p | p in b.patterns ensures '\n' !in p {
        var k, j :| 0 <= k < |lines| && lines[k].kind == Rule && 0 <= j < |lines[k].owners.GetOr([])| &&
                    lines[k].owners.GetOr([])[j].name == "@" + b.team && p == Transform(lines[k].rulePattern);
        TransformNoLineFeed(lines[k].rulePattern);
      }
      ItemLinesNoLineFeed(b.patterns);
    }
    BlocksLinesNoLineFeed(blocks);
  }

  lemma TransformNoLineFeed(pattern: string)
    requires '\n' !in pattern
    ensures '\n' !in Transform(pattern)
  {
    TransformCases(pattern);
  }

  lemma {:induction false} ItemLinesNoLineFeed(patterns: seq<string>)
    requires forall p :: p in patterns ==> '\n' !in p
    ensures forall x :: x in ItemLines(patterns) ==> '\n' !in x
  {
    if patterns != [] {
      ItemLinesNoLineFeed(patterns[1..]);
    }
  }

  lemma {:induction false} BlocksLinesNoLineFeed(blocks: seq<TeamBlock>)
    requires forall b :: b in blocks ==> forall x :: x in BlockLines(b) ==> '\n' !in x
    ensures forall x :: x in BlocksLines(blocks) ==> '\n' !in x
  {
    if blocks != [] {
      BlocksLinesNoLineFeed(blocks[1..]);
    }
  }

  /** The output splits into the header's lines, then the blocks' lines,
      and a reader of those lines recovers each team with at least one
      pattern and its patterns, in the order the teams were visited. */
  lemma LabelerYmlReadsBack(headerLines: seq<string>, lines: seq<Line>, order: seq<string>)
    requires forall k :: 0 <= k < |headerLines| ==> '\n' !in headerLines[k]
    requires forall k :: 0 <= k < |order| ==> '\n' !in order[k]
    requires forall k :: 0 <= k < |lines| ==> '\n' !in lines[k].rulePattern
    ensures var body := BlocksLines(TeamBlocks(lines, order));
            && SplitLines(LabelerYml(Unlines(headerLines), lines, order)) == headerLines + body + [""]
            && ReadBlocks(body) == Some(TeamBlocks(lines, order))
  {
    var body := BlocksLines(TeamBlocks(lines, order));
    BlocksOneLine(lines, order);
    UnlinesAppend(headerLines, body);
    SplitUnlines(headerLines + body);
    ReadBlocksOf(TeamBlocks(lines, order));
  }
}
