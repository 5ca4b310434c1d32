/** The virtual-team expansion of internal/teams/parse.go: a decoded team
    map is checked for member names written with `@`, and Apply replaces
    every `@team` owner of a rule or section heading by the team's members,
    then sorts the owners by name and drops repeated names. */
module Teams {
  import opened Wrappers
  import opened GoText
  import opened Patterns
  import opened Codeowners

  /** A decoded team map: team names to member names. */
  type TeamMap = map<string, seq<string>>

  // ---------------------------------------------------------------------
  // Validation (the loop of Parse after decoding)

  predicate StartsWithAt(s: string) {
    "@" <= s
  }

  /** No member of the list starts with `@`. */
  predicate Clean(members: seq<string>) {
    forall k :: 0 <= k < |members| ==> !StartsWithAt(members[k])
  }

  predicate AllClean(teamMap: TeamMap) {
    forall team :: team in teamMap ==> Clean(teamMap[team])
  }

  /** The offending member, its team and its 0-based position in the team. */
  datatype MemberError = MemberError(member: string, team: string, index: nat)

  const MessagePrefix: string := "don't start team member names with an '@'; '"

  function ErrorMessage(e: MemberError): string {
    MessagePrefix + e.member + "' (team '" + e.team + "', member " + FormatInt(e.index) + ")"
  }

  /** `e` names the first member with an `@` when the teams are visited in
      `order`: the member is at `e.index` of team `e.team`, starts with `@`,
      no member before it in that team does, and no team visited earlier
      has such a member. */
  predicate IsFirstOffence(teamMap: TeamMap, order: seq<string>, e: MemberError) {
    && e.team in teamMap
    && e.index < |teamMap[e.team]|
    && teamMap[e.team][e.index] == e.member
    && StartsWithAt(e.member)
    && Clean(teamMap[e.team][..e.index])
    && exists p :: 0 <= p < |order| && order[p] == e.team &&
         forall q :: 0 <= q < p && order[q] in teamMap ==> Clean(teamMap[order[q]])
  }

  /** The check Parse makes on a decoded map, visiting the teams in `order`
      (Go visits a map in an unspecified order; `order` stands for it and
      lists every team). It fails on the first member that starts with `@`. */
  method Validate(teamMap: TeamMap, order: seq<string>) returns (r: Result<TeamMap, MemberError>)
    requires forall team :: team in teamMap ==> team in order
    ensures r.Ok? <==> AllClean(teamMap)
    ensures r.Ok? ==> r.value == teamMap
    ensures r.Err? ==> IsFirstOffence(teamMap, order, r.error)
  {
    for p := 0 to |order|
      invariant forall q :: 0 <= q < p && order[q] in teamMap ==> Clean(teamMap[order[q]])
    {
      var team := order[p];
      if team in teamMap {
        var members := teamMap[team];
        for i := 0 to |members|
          invariant Clean(members[..i])
        {
          if StartsWithAt(members[i]) {
            assert members[..i] == teamMap[team][..i];
            return Err(MemberError(members[i], team, i));
          }
          assert members[..i + 1] == members[..i] + [members[i]];
        }
        assert members[..|members|] == members;
      }
    }
    forall team | team in teamMap ensures Clean(teamMap[team]) {
      var q :| 0 <= q < |order| && order[q] == team;
    }
    return Ok(teamMap);
  }

  /** The message of parse_test.go for member 1 of team1, piece by piece. */
  lemma ErrorMessageExample()
    ensures ErrorMessage(MemberError("@user-starts-with-at", "team1", 1)) ==
            "don't start team member names with an '@'; '" + "@user-starts-with-at" +
            "' (team 'team1', member 1)"
  {
    assert FormatInt(1) == "1";
    assert "' (team '" + "team1" + "', member " + "1" + ")" == "' (team 'team1', member 1)";
  }

  // ---------------------------------------------------------------------
  // cookOwner

  /** cookOwner: a member is classified as an owner token would be; one that
      would be invalid becomes a user or group by putting `@` before it. */
  function CookOwner(ownerString: string): Owner {
    var owner := ParseOwner(ownerString);
    if owner.kind == Invalid then Owner(UserOrGroup, "@" + ownerString) else owner
  }

  /** A cooked member is never invalid; it is an e-mail exactly when the
      member reads as one, keeping its name; otherwise it is a user or group
      named with one `@` in front unless the member already reads as one. */
  lemma CookOwnerKinds(ownerString: string)
    ensures CookOwner(ownerString).kind != Invalid
    ensures CookOwner(ownerString).kind == EMail <==> ParseOwner(ownerString).kind == EMail
    ensures CookOwner(ownerString).name == if ParseOwner(ownerString).kind == Invalid then "@" + ownerString else ownerString
    ensures !StartsWithAt(ownerString) && ParseOwner(ownerString).kind != EMail ==>
              CookOwner(ownerString) == Owner(UserOrGroup, "@" + ownerString)
  {
    ParseOwnerClassifies(ownerString);
  }

  /** A cooked member is what parsing its own name gives, for every member
      that is not empty and has no line feed: it would read the same way
      written into a CODEOWNERS file. */
  lemma CookOwnerReads(ownerString: string)
    requires ownerString != [] && '\n' !in ownerString
    ensures ParseOwner(CookOwner(ownerString).name) == CookOwner(ownerString)
  {
    ParseOwnerClassifies(ownerString);
    if ParseOwner(ownerString).kind == Invalid {
      var name := "@" + ownerString;
      assert name[1..] == ownerString;
      assert IsUserOrGroup(name);
    }
  }

  /** A member of parse_test.go: "user1" becomes "@user1". */
  lemma CookOwnerUserExample()
    ensures CookOwner("user1") == Owner(UserOrGroup, "@user1")
  {
    RunEndUnique("user1", 0, 5, NoAt);
    assert !IsEmail("user1");
  }

  /** A member of parse_test.go: an e-mail address is kept as it is. */
  lemma CookOwnerEmailExample()
    ensures CookOwner("user5@somewhere.else.com") == Owner(EMail, "user5@somewhere.else.com")
  {
    var e := "user5@somewhere.else.com";
    RunEndUnique(e, 0, 5, NoAt);
    assert IsEmail(e);
  }

  // ---------------------------------------------------------------------
  // uniqOwners

  function NameSet(owners: seq<Owner>): set<string> {
    set o | o in owners :: o.name
  }

  /** The owners with repeated names dropped, the first of each name kept. */
  function Uniq(owners: seq<Owner>): seq<Owner> {
    if owners == [] then []
    else
      var init := owners[..|owners| - 1];
      var last := owners[|owners| - 1];
      if last.name in NameSet(init) then Uniq(init) else Uniq(init) + [last]
  }

  /** uniqOwners: nil for no owners, otherwise the owners without repeated
      names. */
  method UniqOwners(owners: seq<Owner>) returns (r: Option<seq<Owner>>)
    ensures r == if owners == [] then None else Some(Uniq(owners))
  {
    var visited: set<string> := {};
    r := None;
    for i := 0 to |owners|
      invariant visited == NameSet(owners[..i])
      invariant r == if i == 0 then None else Some(Uniq(owners[..i]))
    {
      var owner := owners[i];
      assert owners[..i + 1][..i] == owners[..i];
      assert NameSet(owners[..i + 1]) == NameSet(owners[..i]) + {owner.name} by {
        assert owners[..i + 1] == owners[..i] + [owner];
      }
      if owner.name !in visited {
        r := Some(r.GetOr([]) + [owner]);
        visited := visited + {owner.name};
      }
    }
    assert owners[..|owners|] == owners;
  }

  /** The kept owners have pairwise different names, are drawn from the
      input, and every input name is kept. */
  lemma {:induction false} UniqShape(owners: seq<Owner>)
    ensures forall i, j :: 0 <= i < j < |Uniq(owners)| ==> Uniq(owners)[i].name != Uniq(owners)[j].name
    ensures forall o :: o in Uniq(owners) ==> o in owners
    ensures NameSet(Uniq(owners)) == NameSet(owners)
  {
    if owners != [] {
      var init := owners[..|owners| - 1];
      var last := owners[|owners| - 1];
      UniqShape(init);
      assert owners == init + [last];
      assert NameSet(owners) == NameSet(init) + {last.name};
      if last.name !in NameSet(init) {
        var u := Uniq(init);
        assert NameSet(u + [last]) == NameSet(u) + {last.name};
        forall i | 0 <= i < |u| ensures u[i].name != last.name {
          assert u[i] in u;
        }
      }
    }
  }

  /** Each kept owner is the first input owner with its name. */
  lemma {:induction false} UniqFirst(owners: seq<Owner>)
    ensures forall o :: o in Uniq(owners) ==>
              exists j :: 0 <= j < |owners| && owners[j] == o && o.name !in NameSet(owners[..j])
  {
    if owners != [] {
      var n := |owners| - 1;
      var init := owners[..n];
      UniqFirst(init);
      forall o | o in Uniq(owners)
        ensures exists j :: 0 <= j < |owners| && owners[j] == o && o.name !in NameSet(owners[..j])
      {
        if o in Uniq(init) {
          var j :| 0 <= j < |init| && init[j] == o && o.name !in NameSet(init[..j]);
          assert owners[..j] == init[..j];
        } else {
          assert owners[n] == o;
        }
      }
    }
  }

  /** `a` is `b` with some elements left out, the rest in order. */
  predicate IsSubsequence(a: seq<Owner>, b: seq<Owner>)
    decreases |b|
  {
    if a == [] then true
    else if b == [] then false
    else if a[|a| - 1] == b[|b| - 1] then IsSubsequence(a[..|a| - 1], b[..|b| - 1])
    else IsSubsequence(a, b[..|b| - 1])
  }

  /** Dropping repeated names keeps the order of the owners. */
  lemma {:induction false} UniqSubsequence(owners: seq<Owner>)
    ensures IsSubsequence(Uniq(owners), owners)
  {
    if owners != [] {
      var init := owners[..|owners| - 1];
      var last := owners[|owners| - 1];
      UniqSubsequence(init);
      var u := Uniq(init);
      if last.name !in NameSet(init) {
        assert (u + [last])[..|u|] == u;
      } else {
        assert owners[..|owners| - 1] == init;
        SubsequenceExtend(u, init, last);
      }
    }
  }

  lemma {:induction false} SubsequenceExtend(a: seq<Owner>, b: seq<Owner>, x: Owner)
    requires IsSubsequence(a, b)
    ensures IsSubsequence(a, b + [x])
  {
    assert (b + [x])[..|b|] == b;
    if a != [] && a[|a| - 1] == x {
      SubsequenceDropLast(a, b);
    }
  }

  lemma {:induction false} SubsequenceDropLast(a: seq<Owner>, b: seq<Owner>)
    requires a != [] && IsSubsequence(a, b)
    ensures IsSubsequence(a[..|a| - 1], b)
    decreases |b|
  {
    var a' := a[..|a| - 1];
    var b' := b[..|b| - 1];
    if a[|a| - 1] != b[|b| - 1] {
      SubsequenceDropLast(a, b');
    }
    if a' != [] && a'[|a'| - 1] == b[|b| - 1] {
      SubsequenceDropLast(a', b');
      assert a'[..|a'| - 1] == a[..|a| - 2];
    }
  }

  // ---------------------------------------------------------------------
  // Ordering by name: cmp.Compare on strings

  /** Lexicographic order of code points, which is the byte order of their
      UTF-8 encodings that cmp.Compare uses. */
  predicate Less(a: string, b: string)
    decreases |a|
  {
    if a == [] then b != []
    else if b == [] then false
    else if a[0] != b[0] then a[0] < b[0]
    else Less(a[1..], b[1..])
  }

  lemma {:induction false} LessIrreflexive(a: string)
    ensures !Less(a, a)
    decreases |a|
  {
    if a != [] {
      LessIrreflexive(a[1..]);
    }
  }

  lemma {:induction false} LessTransitive(a: string, b: string, c: string)
    requires Less(a, b) && Less(b, c)
    ensures Less(a, c)
    decreases |a|
  {
    if a != [] && b != [] && c != [] && a[0] == b[0] && b[0] == c[0] {
      LessTransitive(a[1..], b[1..], c[1..]);
    }
  }

  lemma {:induction false} LessTotal(a: string, b: string)
    requires a != b
    ensures Less(a, b) || Less(b, a)
    decreases |a|
  {
    if a != [] && b != [] && a[0] == b[0] {
      assert a == [a[0]] + a[1..] && b == [b[0]] + b[1..];
      LessTotal(a[1..], b[1..]);
    }
  }

  lemma {:induction false} LessAsymmetric(a: string, b: string)
    requires Less(a, b)
    ensures !Less(b, a)
    decreases |a|
  {
    if a != [] && b != [] && a[0] == b[0] {
      LessAsymmetric(a[1..], b[1..]);
    }
  }

  /** Owners in ascending order of name, equal names allowed. */
  predicate Sorted(s: seq<Owner>) {
    forall i, j :: 0 <= i < j < |s| ==> !Less(s[j].name, s[i].name)
  }

  /** Owners in strictly ascending order of name. */
  predicate StrictlyAscending(s: seq<Owner>) {
    forall i, j :: 0 <= i < j < |s| ==> Less(s[i].name, s[j].name)
  }

  /** `x` placed after the owners of a sorted list whose names are not
      greater than its own. */
  function Insert(s: seq<Owner>, x: Owner): seq<Owner> {
    if s == [] then [x]
    else if Less(x.name, s[0].name) then [x] + s
    else [s[0]] + Insert(s[1..], x)
  }

  /** The owners sorted by name, one insertion at a time. */
  function SortByName(owners: seq<Owner>): seq<Owner> {
    if owners == [] then []
    else Insert(SortByName(owners[..|owners| - 1]), owners[|owners| - 1])
  }

  lemma {:induction false} InsertPermutes(s: seq<Owner>, x: Owner)
    ensures multiset(Insert(s, x)) == multiset(s) + multiset{x}
  {
    if s != [] && !Less(x.name, s[0].name) {
      InsertPermutes(s[1..], x);
      assert s == [s[0]] + s[1..];
    }
  }

  /** Not greater than: the order Sorted uses between neighbours. */
  lemma NotLessTransitive(a: string, b: string, c: string)
    requires !Less(b, a) && !Less(c, b)
    ensures !Less(c, a)
  {
    if Less(c, a) && a != b {
      LessTotal(a, b);
      LessTransitive(c, a, b);
    }
  }

  lemma {:induction false} InsertSorted(s: seq<Owner>, x: Owner)
    requires Sorted(s)
    ensures Sorted(Insert(s, x))
  {
    if s == [] {
    } else if Less(x.name, s[0].name) {
      var r := [x] + s;
      forall i, j | 0 <= i < j < |r| ensures !Less(r[j].name, r[i].name) {
        if i == 0 {
          LessAsymmetric(x.name, s[0].name);
          if j > 1 {
            NotLessTransitive(x.name, s[0].name, s[j - 1].name);
          }
        }
      }
    } else {
      var rest := Insert(s[1..], x);
      InsertSorted(s[1..], x);
      InsertPermutes(s[1..], x);
      var r := [s[0]] + rest;
      forall i, j | 0 <= i < j < |r| ensures !Less(r[j].name, r[i].name) {
        if i == 0 {
          assert r[j] in multiset(rest);
          assert r[j] in multiset(s[1..]) || r[j] == x;
          if r[j] != x {
            var k :| 0 <= k < |s[1..]| && s[1..][k] == r[j];
            assert s[k + 1] == r[j];
          }
        }
      }
    }
  }

  /** SortByName orders by name and only rearranges the owners. */
  lemma {:induction false} SortByNameCorrect(owners: seq<Owner>)
    ensures Sorted(SortByName(owners))
    ensures multiset(SortByName(owners)) == multiset(owners)
  {
    if owners != [] {
      var init := owners[..|owners| - 1];
      SortByNameCorrect(init);
      InsertSorted(SortByName(init), owners[|owners| - 1]);
      InsertPermutes(SortByName(init), owners[|owners| - 1]);
      assert owners == init + [owners[|owners| - 1]];
    }
  }

  /** Dropping repeated names from a sorted list leaves it strictly
      ascending. */
  lemma {:induction false} UniqOfSorted(s: seq<Owner>)
    requires Sorted(s)
    ensures StrictlyAscending(Uniq(s))
  {
    if s != [] {
      var init := s[..|s| - 1];
      var last := s[|s| - 1];
      UniqOfSorted(init);
      var u := Uniq(init);
      if last.name !in NameSet(init) {
        UniqShape(init);
        var r := u + [last];
        forall i, j | 0 <= i < j < |r| ensures Less(r[i].name, r[j].name) {
          if j == |u| {
            assert u[i] in u;
            var k :| 0 <= k < |init| && init[k] == u[i];
            assert s[k] == u[i];
            assert u[i].name != last.name;
            LessTotal(u[i].name, last.name);
          }
        }
      }
    }
  }

  // ---------------------------------------------------------------------
  // Expansion

  /** strings.TrimPrefix(name, "@"). */
  function TrimAt(name: string): string {
    if StartsWithAt(name) then name[1..] else name
  }

  /** An owner is replaced by its team's members exactly when it is a user
      or group whose name, without one leading `@`, is a team. */
  predicate Expandable(o: Owner, teamMap: TeamMap) {
    TrimAt(o.name) in teamMap && o.kind == UserOrGroup
  }

  /** The cooked members of a team, in order. */
  function Cooked(members: seq<string>): seq<Owner> {
    if members == [] then []
    else Cooked(members[..|members| - 1]) + [CookOwner(members[|members| - 1])]
  }

  /** What one owner contributes to the new owner list. */
  function ExpandOwner(o: Owner, teamMap: TeamMap): seq<Owner> {
    if Expandable(o, teamMap) then Cooked(teamMap[TrimAt(o.name)]) else [o]
  }

  /** The owner list with every team replaced by its members, in order. */
  function Expand(owners: seq<Owner>, teamMap: TeamMap): seq<Owner> {
    if owners == [] then []
    else Expand(owners[..|owners| - 1], teamMap) + ExpandOwner(owners[|owners| - 1], teamMap)
  }

  /** The inner loops of Apply that build newOwners. */
  method ExpandOwners(owners: seq<Owner>, teamMap: TeamMap) returns (newOwners: seq<Owner>)
    ensures newOwners == Expand(owners, teamMap)
  {
    newOwners := [];
    for i := 0 to |owners|
      invariant newOwners == Expand(owners[..i], teamMap)
    {
      var owner := owners[i];
      assert owners[..i + 1][..i] == owners[..i];
      var key := TrimAt(owner.name);
      if key in teamMap && owner.kind == UserOrGroup {
        var members := teamMap[key];
        var before := newOwners;
        for j := 0 to |members|
          invariant newOwners == before + Cooked(members[..j])
        {
          assert members[..j + 1][..j] == members[..j];
          newOwners := newOwners + [CookOwner(members[j])];
        }
        assert members[..|members|] == members;
      } else {
        newOwners := newOwners + [owner];
      }
    }
    assert owners[..|owners|] == owners;
  }

  lemma {:induction false} CookedMembers(members: seq<string>)
    ensures forall x :: x in Cooked(members) <==> exists j :: 0 <= j < |members| && x == CookOwner(members[j])
  {
    if members != [] {
      var init := members[..|members| - 1];
      CookedMembers(init);
      forall x | x in Cooked(init) ensures exists j :: 0 <= j < |members| && x == CookOwner(members[j]) {
        var j :| 0 <= j < |init| && x == CookOwner(init[j]);
        assert members[j] == init[j];
      }
      forall j | 0 <= j < |members| - 1 ensures CookOwner(members[j]) in Cooked(init) {
        assert members[j] == init[j];
      }
    }
  }

  /** Exactly the owners that are not teams and the cooked members of the
      teams appear in the expanded list. */
  lemma {:induction false} ExpandMembers(owners: seq<Owner>, teamMap: TeamMap)
    ensures forall x :: x in Expand(owners, teamMap) <==>
              exists k :: 0 <= k < |owners| && x in ExpandOwner(owners[k], teamMap)
  {
    if owners != [] {
      var init := owners[..|owners| - 1];
      ExpandMembers(init, teamMap);
      forall x | x in Expand(init, teamMap)
        ensures exists k :: 0 <= k < |owners| && x in ExpandOwner(owners[k], teamMap)
      {
        var k :| 0 <= k < |init| && x in ExpandOwner(init[k], teamMap);
        assert owners[k] == init[k];
      }
      forall k | 0 <= k < |owners| - 1
        ensures forall x :: x in ExpandOwner(owners[k], teamMap) ==> x in Expand(owners, teamMap)
      {
        assert owners[k] == init[k];
      }
    }
  }

  /** One owner's contribution: itself unless it is a team; a team's
      members cooked, none of them invalid. */
  lemma ExpandOwnerCases(o: Owner, teamMap: TeamMap)
    ensures !Expandable(o, teamMap) ==> ExpandOwner(o, teamMap) == [o]
    ensures Expandable(o, teamMap) ==>
              forall x :: x in ExpandOwner(o, teamMap) <==>
                exists j :: 0 <= j < |teamMap[TrimAt(o.name)]| && x == CookOwner(teamMap[TrimAt(o.name)][j])
    ensures Expandable(o, teamMap) ==> forall x :: x in ExpandOwner(o, teamMap) ==> x.kind != Invalid
  {
    if Expandable(o, teamMap) {
      var members := teamMap[TrimAt(o.name)];
      CookedMembers(members);
      forall j | 0 <= j < |members| ensures CookOwner(members[j]).kind != Invalid {
        CookOwnerKinds(members[j]);
      }
    }
  }

  /** With no teams, nothing is expanded. */
  lemma {:induction false} ExpandEmptyMap(owners: seq<Owner>)
    ensures Expand(owners, map[]) == owners
  {
    if owners != [] {
      ExpandEmptyMap(owners[..|owners| - 1]);
    }
  }

  // ---------------------------------------------------------------------
  // Apply

  /** The new owners of a rule or section heading: expanded, sorted by
      name, repeated names dropped; nil when none are left. */
  function ApplyOwners(owners: Option<seq<Owner>>, teamMap: TeamMap): Option<seq<Owner>> {
    var expanded := Expand(owners.GetOr([]), teamMap);
    if expanded == [] then None else Some(Uniq(SortByName(expanded)))
  }

  /** A record after Apply: rules and section headings get new owners. */
  function ApplyLine(l: Line, teamMap: TeamMap): Line {
    if l.kind == Rule || l.kind == SectionHeading then l.(owners := ApplyOwners(l.owners, teamMap)) else l
  }

  /** Apply: every record in order, each as ApplyLine makes it. */
  method Apply(lines: seq<Line>, teamMap: TeamMap) returns (transformed: seq<Line>)
    ensures |transformed| == |lines|
    ensures forall k :: 0 <= k < |lines| ==> transformed[k] == ApplyLine(lines[k], teamMap)
  {
    transformed := [];
    for i := 0 to |lines|
      invariant |transformed| == i
      invariant forall k :: 0 <= k < i ==> transformed[k] == ApplyLine(lines[k], teamMap)
    {
      var line := lines[i];
      if line.kind == Rule || line.kind == SectionHeading {
        var newOwners := ExpandOwners(line.owners.GetOr([]), teamMap);
        newOwners := SortByName(newOwners);
        var owners := UniqOwners(newOwners);
        line := line.(owners := owners);
      }
      transformed := transformed + [line];
    }
  }

  /** Apply changes nothing but the owners, and only those of rules and
      section headings. */
  lemma ApplyLineFields(l: Line, teamMap: TeamMap)
    ensures ApplyLine(l, teamMap).(owners := l.owners) == l
    ensures l.kind != Rule && l.kind != SectionHeading ==> ApplyLine(l, teamMap) == l
  {
  }

  /** The new owners are in strictly ascending order of name (so no name
      repeats), come from the expanded list, and every name of the
      expanded list is among them; there are none exactly when the
      expansion is empty, so a record without owners keeps none. */
  lemma ApplyOwnersShape(owners: Option<seq<Owner>>, teamMap: TeamMap)
    ensures var r := ApplyOwners(owners, teamMap);
            var expanded := Expand(owners.GetOr([]), teamMap);
            && (r.None? <==> expanded == [])
            && (owners.None? ==> r.None?)
            && (r.Some? ==> r.value != [] && StrictlyAscending(r.value))
            && (forall o :: o in r.GetOr([]) ==> o in expanded)
            && NameSet(r.GetOr([])) == NameSet(expanded)
  {
    var expanded := Expand(owners.GetOr([]), teamMap);
    var sorted := SortByName(expanded);
    SortByNameCorrect(expanded);
    UniqOfSorted(sorted);
    UniqShape(sorted);
    assert forall o :: o in sorted <==> o in expanded by {
      forall o ensures o in sorted <==> o in expanded {
        assert o in sorted <==> o in multiset(sorted);
      }
    }
    assert NameSet(sorted) == NameSet(expanded);
    if expanded != [] {
      assert expanded[0] in sorted;
      assert Uniq(sorted) != [] by {
        assert expanded[0].name in NameSet(Uniq(sorted));
      }
    }
  }

  /** With an empty team map Apply only sorts and drops repeated names:
      the new owners are owners of the record, and every name of the
      record is kept. */
  lemma ApplyEmptyMap(owners: Option<seq<Owner>>)
    ensures ApplyOwners(owners, map[]) == if owners.GetOr([]) == [] then None else Some(Uniq(SortByName(owners.value)))
    ensures forall o :: o in ApplyOwners(owners, map[]).GetOr([]) ==> o in owners.GetOr([])
    ensures NameSet(ApplyOwners(owners, map[]).GetOr([])) == NameSet(owners.GetOr([]))
  {
    ExpandEmptyMap(owners.GetOr([]));
    ApplyOwnersShape(owners, map[]);
  }

  // ---------------------------------------------------------------------
  // Why the order of equal names does not matter

  /** Owners whose names decide them: the owner is what parsing its name
      gives. */
  predicate Canonical(s: seq<Owner>) {
    forall k :: 0 <= k < |s| ==> s[k] == ParseOwner(s[k].name)
  }

  /** Two strictly ascending lists with the same owners are the same list. */
  lemma {:induction false} StrictlyAscendingUnique(a: seq<Owner>, b: seq<Owner>)
    requires StrictlyAscending(a) && StrictlyAscending(b)
    requires forall x :: x in a <==> x in b
    ensures a == b
  {
    if a != [] {
      assert a[0] in b;
      assert b[0] in a;
      SameFirst(a, b);
      forall x ensures x in a[1..] <==> x in b[1..] {
        if x in a[1..] {
          TailMember(a, b, x);
        }
        if x in b[1..] {
          TailMember(b, a, x);
        }
      }
      StrictlyAscendingUnique(a[1..], b[1..]);
      assert a == [a[0]] + a[1..] && b == [b[0]] + b[1..];
    } else {
      FirstIn(b);
    }
  }

  lemma FirstIn(b: seq<Owner>)
    ensures b != [] ==> b[0] in b
  {
  }

  /** The first owner of a strictly ascending list is its least. */
  lemma SameFirst(a: seq<Owner>, b: seq<Owner>)
    requires StrictlyAscending(a) && StrictlyAscending(b) && a != [] && b != []
    requires a[0] in b && b[0] in a
    ensures a[0] == b[0]
  {
    var i :| 0 <= i < |a| && a[i] == b[0];
    var j :| 0 <= j < |b| && b[j] == a[0];
    if i != 0 && j != 0 {
      LessAsymmetric(a[0].name, a[i].name);
    }
  }

  lemma TailMember(a: seq<Owner>, b: seq<Owner>, x: Owner)
    requires StrictlyAscending(a) && a != [] && b != [] && a[0] == b[0]
    requires forall y :: y in a ==> y in b
    requires x in a[1..]
    ensures x in b[1..]
  {
    var i :| 1 <= i < |a| && a[i] == x;
    LessIrreflexive(a[0].name);
    assert a[i] in a;
    var j :| 0 <= j < |b| && b[j] == x;
    assert b[1..][j - 1] == x;
  }

  /** slices.SortFunc is not stable, but when names decide owners every
      ordering by name it may produce leaves the same owners once repeated
      names are dropped. */
  lemma SortOrderIrrelevant(s1: seq<Owner>, s2: seq<Owner>)
    requires Sorted(s1) && Sorted(s2) && multiset(s1) == multiset(s2)
    requires Canonical(s1)
    ensures Uniq(s1) == Uniq(s2)
  {
    UniqShape(s1);
    UniqShape(s2);
    UniqOfSorted(s1);
    UniqOfSorted(s2);
    assert forall x :: x in s1 <==> x in s2 by {
      forall x ensures x in s1 <==> x in s2 {
        assert x in s1 <==> x in multiset(s1);
        assert x in s2 <==> x in multiset(s2);
      }
    }
    assert NameSet(s1) == NameSet(s2);
    forall x ensures x in Uniq(s1) <==> x in Uniq(s2) {
      if x in Uniq(s1) {
        SameNameSameOwner(x, s1, Uniq(s2));
      }
      if x in Uniq(s2) {
        SameNameSameOwner(x, s1, Uniq(s1));
      }
    }
    StrictlyAscendingUnique(Uniq(s1), Uniq(s2));
  }

  /** An owner of a canonical list is the owner with its name in any list
      drawn from it that has the name. */
  lemma SameNameSameOwner(x: Owner, s: seq<Owner>, u: seq<Owner>)
    requires Canonical(s) && x in s
    requires forall o :: o in u ==> o in s
    requires x.name in NameSet(u)
    ensures x in u
  {
    var y :| y in u && y.name == x.name;
    var i :| 0 <= i < |s| && s[i] == x;
    var j :| 0 <= j < |s| && s[j] == y;
  }

  /** No member name is empty or holds a line feed. */
  predicate PlainMembers(teamMap: TeamMap) {
    forall team :: team in teamMap ==> forall j :: 0 <= j < |teamMap[team]| ==> teamMap[team][j] != [] && '\n' !in teamMap[team][j]
  }

  lemma ExpandOwnerCanonical(o: Owner, teamMap: TeamMap, x: Owner)
    requires o == ParseOwner(o.name) && PlainMembers(teamMap)
    requires x in ExpandOwner(o, teamMap)
    ensures x == ParseOwner(x.name)
  {
    ExpandOwnerCases(o, teamMap);
    if Expandable(o, teamMap) {
      var members := teamMap[TrimAt(o.name)];
      var j :| 0 <= j < |members| && x == CookOwner(members[j]);
      CookOwnerReads(members[j]);
    }
  }

  /** Cooked members and owners parsed from their names are canonical, so
      the expansion of a record whose owners were parsed is canonical when
      no member name is empty or holds a line feed. */
  lemma ExpandCanonical(owners: seq<Owner>, teamMap: TeamMap)
    requires Canonical(owners)
    requires PlainMembers(teamMap)
    ensures Canonical(Expand(owners, teamMap))
  {
    var e := Expand(owners, teamMap);
    ExpandMembers(owners, teamMap);
    forall i | 0 <= i < |e| ensures e[i] == ParseOwner(e[i].name) {
      var x := e[i];
      assert x in e;
      var k :| 0 <= k < |owners| && x in ExpandOwner(owners[k], teamMap);
      ExpandOwnerCanonical(owners[k], teamMap, x);
    }
  }

  /** Apply's result does not depend on how the sort orders owners of the
      same name, for parsed owners and non-empty member names. */
  lemma ApplyAnySortOrder(owners: seq<Owner>, teamMap: TeamMap, sorted: seq<Owner>)
    requires Canonical(owners)
    requires PlainMembers(teamMap)
    requires Sorted(sorted) && multiset(sorted) == multiset(Expand(owners, teamMap))
    ensures Uniq(sorted) == Uniq(SortByName(Expand(owners, teamMap)))
  {
    var e := Expand(owners, teamMap);
    ExpandCanonical(owners, teamMap);
    SortByNameCorrect(e);
    CanonicalPermutation(e, sorted);
    SortOrderIrrelevant(sorted, SortByName(e));
  }

  lemma CanonicalPermutation(a: seq<Owner>, b: seq<Owner>)
    requires Canonical(a) && multiset(a) == multiset(b)
    ensures Canonical(b)
  {
    forall k | 0 <= k < |b| ensures b[k] == ParseOwner(b[k].name) {
      assert b[k] in multiset(b);
      var i :| 0 <= i < |a| && a[i] == b[k];
    }
  }

  /** An empty member name is cooked to "@", which parsing calls invalid:
      such a member and a record owner "@" share a name but not a kind. */
  lemma EmptyMemberExample()
    ensures CookOwner("") == Owner(UserOrGroup, "@")
    ensures ParseOwner("@") == Owner(Invalid, "@")
  {
    assert !IsEmail("");
    RunEndUnique("@", 0, 0, NoAt);
  }
}
