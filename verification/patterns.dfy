/** Hand-written matchers for the regular expressions declared at the top of
    internal/codeowners/parse.go. Each matcher returns the capture groups that
    Go's FindStringSubmatch returns, or None when the expression does not
    match.

    Go's regexp chooses, among all the ways an expression can match, the one a
    backtracking matcher would find first ("leftmost-first"): a greedy
    repetition tries its longest run first and an optional group first tries
    to take part. Each matcher below is proved against a declarative
    description of every way its expression can match (the `Is...`
    predicates): it finds a match exactly when one exists, and the one it
    returns is the one backtracking prefers.

    Regular-expression character classes: `\s` is RE2's [\t\n\f\r ]; the
    negated classes [^\s], [^#], [^\]] and [^@] include the line feed (Go
    compiles with the ClassNL flag); `.` excludes the line feed; `$` is the
    end of the text. */
module Patterns {
  import opened Wrappers
  import opened GoText

  // ---------------------------------------------------------------------
  // `(?:#(?<comment>.*))?$`: None when the group takes no part.

  function CommentText(comment: Option<string>): string {
    match comment
    case None => ""
    case Some(c) => "#" + c
  }

  predicate CommentOk(comment: Option<string>) {
    comment.Some? ==> AllOf(comment.value, Dot)
  }

  function MatchComment(t: string): Option<Option<string>> {
    if t == [] then Some(None)
    else if t[0] == '#' && AllOf(t[1..], Dot) then Some(Some(t[1..]))
    else None
  }

  lemma MatchCommentExact(t: string, comment: Option<string>)
    ensures MatchComment(t) == Some(comment) <==> CommentOk(comment) && t == CommentText(comment)
  {
    if comment.Some? && t == CommentText(comment) {
      assert t[1..] == comment.value;
    }
  }

  // ---------------------------------------------------------------------
  // `(\s*)(?:#(?<comment>.*))?$`: the end of the ownerless rule and section
  // expressions.

  datatype BareTail = BareTail(spaces: string, comment: Option<string>)

  ghost predicate IsBareTail(t: string, b: BareTail) {
    && t == b.spaces + CommentText(b.comment)
    && AllOf(b.spaces, Space)
    && CommentOk(b.comment)
  }

  function MatchBareTail(t: string): Option<BareTail> {
    var m := RunEnd(t, 0, Space);
    match MatchComment(t[m..])
    case None => None
    case Some(c) => Some(BareTail(t[..m], c))
  }

  /** The ownerless tail matches in exactly one way. */
  lemma MatchBareTailExact(t: string, b: BareTail)
    ensures MatchBareTail(t) == Some(b) <==> IsBareTail(t, b)
  {
    var m := RunEnd(t, 0, Space);
    if MatchBareTail(t) == Some(b) {
      MatchCommentExact(t[m..], b.comment);
      assert t == t[..m] + t[m..];
    }
    if IsBareTail(t, b) {
      var k := |b.spaces|;
      assert t[k..] == CommentText(b.comment);
      assert forall j :: 0 <= j < k ==> IsReSpace(t[j]) by {
        forall j | 0 <= j < k ensures IsReSpace(t[j]) {
          assert t[j] == b.spaces[j];
        }
      }
      assert k == |t| || !IsReSpace(t[k]) by {
        if k < |t| {
          assert t[k] == '#';
        }
      }
      RunEndUnique(t, 0, k, Space);
      MatchCommentExact(t[k..], b.comment);
      assert t[..k] == b.spaces;
    }
  }

  // ---------------------------------------------------------------------
  // `(?<spaces>\s+)(?<ownerNames>[^#]+)(?:#(?<comment>.*))?$`: the end of
  // the rule and section expressions with owners.

  datatype OwnedTail = OwnedTail(spaces: string, ownerNames: string, comment: Option<string>)

  ghost predicate IsOwnedTail(t: string, o: OwnedTail) {
    && t == o.spaces + o.ownerNames + CommentText(o.comment)
    && o.spaces != [] && AllOf(o.spaces, Space)
    && o.ownerNames != [] && AllOf(o.ownerNames, NoHash)
    && CommentOk(o.comment)
  }

  /** `([^#]+)(?:#(.*))?$` on what follows the spaces. */
  function MatchNamesAndComment(u: string): Option<(string, Option<string>)> {
    var e := RunEnd(u, 0, NoHash);
    if e == 0 then None
    else
      match MatchComment(u[e..])
      case None => None
      case Some(c) => Some((u[..e], c))
  }

  lemma MatchNamesAndCommentExact(u: string, names: string, comment: Option<string>)
    ensures MatchNamesAndComment(u) == Some((names, comment)) <==>
            names != [] && AllOf(names, NoHash) && CommentOk(comment) && u == names + CommentText(comment)
  {
    var e := RunEnd(u, 0, NoHash);
    if MatchNamesAndComment(u) == Some((names, comment)) {
      MatchCommentExact(u[e..], comment);
      assert u == u[..e] + u[e..];
    }
    if names != [] && AllOf(names, NoHash) && CommentOk(comment) && u == names + CommentText(comment) {
      var k := |names|;
      assert u[k..] == CommentText(comment);
      assert forall j :: 0 <= j < k ==> In(u[j], NoHash) by {
        forall j | 0 <= j < k ensures In(u[j], NoHash) {
          assert u[j] == names[j];
        }
      }
      assert k == |u| || !In(u[k], NoHash) by {
        if k < |u| {
          assert u[k] == '#';
        }
      }
      RunEndUnique(u, 0, k, NoHash);
      MatchCommentExact(u[k..], comment);
      assert u[..k] == names;
    }
  }

  /** Backtracking over the length of `\s+`, longest first. */
  function SearchOwnedTail(t: string, j: nat): Option<OwnedTail>
    requires j <= |t|
  {
    if j == 0 then None
    else
      match MatchNamesAndComment(t[j..])
      case Some((names, c)) => Some(OwnedTail(t[..j], names, c))
      case None => SearchOwnedTail(t, j - 1)
  }

  function MatchOwnedTail(t: string): Option<OwnedTail> {
    SearchOwnedTail(t, RunEnd(t, 0, Space))
  }

  /** `AllOf` for a prefix. */
  lemma AllOfPrefix(t: string, j: nat, p: CharClass)
    requires j <= |t|
    requires forall k :: 0 <= k < j ==> In(t[k], p)
    ensures AllOf(t[..j], p)
  {
    forall k | 0 <= k < j ensures In(t[..j][k], p) {
      assert t[..j][k] == t[k];
    }
  }

  lemma OwnedTailOf(t: string, j: nat, names: string, c: Option<string>)
    requires 0 < j <= |t|
    requires AllOf(t[..j], Space)
    requires names != [] && AllOf(names, NoHash) && CommentOk(c)
    requires t[j..] == names + CommentText(c)
    ensures IsOwnedTail(t, OwnedTail(t[..j], names, c))
  {
    assert t == t[..j] + t[j..];
  }

  lemma OwnedTailAt(t: string, j: nat, names: string, c: Option<string>)
    requires 0 < j <= |t|
    requires forall k :: 0 <= k < j ==> IsReSpace(t[k])
    requires MatchNamesAndComment(t[j..]) == Some((names, c))
    ensures IsOwnedTail(t, OwnedTail(t[..j], names, c))
  {
    MatchNamesAndCommentExact(t[j..], names, c);
    AllOfPrefix(t, j, Space);
    OwnedTailOf(t, j, names, c);
  }

  /** What the search returns is the split at some position up to `j`
      where the names and comment match. */
  lemma {:induction false} SearchOwnedTailFound(t: string, j: nat)
    requires j <= |t|
    ensures var r := SearchOwnedTail(t, j);
            r.Some? ==> exists i :: 0 < i <= j && r == Some(OwnedTail(t[..i], r.value.ownerNames, r.value.comment))
                                    && MatchNamesAndComment(t[i..]) == Some((r.value.ownerNames, r.value.comment))
  {
    if j > 0 && MatchNamesAndComment(t[j..]).None? {
      SearchOwnedTailFound(t, j - 1);
    }
  }

  lemma SearchOwnedTailSound(t: string, j: nat)
    requires j <= |t|
    requires forall k :: 0 <= k < j ==> IsReSpace(t[k])
    ensures var r := SearchOwnedTail(t, j); r.Some? ==> IsOwnedTail(t, r.value) && |r.value.spaces| <= j
  {
    SearchOwnedTailFound(t, j);
    var r := SearchOwnedTail(t, j);
    if r.Some? {
      var i :| 0 < i <= j && r == Some(OwnedTail(t[..i], r.value.ownerNames, r.value.comment))
               && MatchNamesAndComment(t[i..]) == Some((r.value.ownerNames, r.value.comment));
      OwnedTailAt(t, i, r.value.ownerNames, r.value.comment);
    }
  }

  /** Searching down from `j` finds the split at `k` unless it finds one
      with a longer `\s+` first. */
  lemma {:induction false} SearchOwnedTailReaches(t: string, j: nat, k: nat, names: string, c: Option<string>)
    requires 0 < k <= j <= |t|
    requires MatchNamesAndComment(t[k..]) == Some((names, c))
    ensures SearchOwnedTail(t, j).Some?
    ensures SearchOwnedTail(t, j).value == OwnedTail(t[..k], names, c) || k < |SearchOwnedTail(t, j).value.spaces|
    decreases j
  {
    var m := MatchNamesAndComment(t[j..]);
    if m.Some? {
      var r := OwnedTail(t[..j], m.value.0, m.value.1);
      assert SearchOwnedTail(t, j) == Some(r);
      if j == k {
        assert r == OwnedTail(t[..k], names, c);
      } else {
        assert k < |r.spaces|;
      }
    } else {
      assert j > k;
      assert SearchOwnedTail(t, j) == SearchOwnedTail(t, j - 1);
      SearchOwnedTailReaches(t, j - 1, k, names, c);
    }
  }

  lemma SearchOwnedTailComplete(t: string, j: nat, o: OwnedTail)
    requires IsOwnedTail(t, o) && |o.spaces| <= j <= |t|
    ensures SearchOwnedTail(t, j).Some?
    ensures o == SearchOwnedTail(t, j).value || |o.spaces| < |SearchOwnedTail(t, j).value.spaces|
  {
    var k := |o.spaces|;
    assert t[k..] == o.ownerNames + CommentText(o.comment);
    MatchNamesAndCommentExact(t[k..], o.ownerNames, o.comment);
    assert t[..k] == o.spaces;
    SearchOwnedTailReaches(t, j, k, o.ownerNames, o.comment);
  }

  /** The owned tail matches when some decomposition exists, and backtracking
      picks the one with the longest `\s+`. */
  lemma MatchOwnedTailCorrect(t: string)
    ensures MatchOwnedTail(t).Some? ==> IsOwnedTail(t, MatchOwnedTail(t).value)
    ensures forall o :: IsOwnedTail(t, o) ==>
              MatchOwnedTail(t).Some? && (o == MatchOwnedTail(t).value || |o.spaces| < |MatchOwnedTail(t).value.spaces|)
  {
    var m := RunEnd(t, 0, Space);
    SearchOwnedTailSound(t, m);
    forall o | IsOwnedTail(t, o)
      ensures MatchOwnedTail(t).Some? && (o == MatchOwnedTail(t).value || |o.spaces| < |MatchOwnedTail(t).value.spaces|)
    {
      forall k | 0 <= k < |o.spaces| ensures IsReSpace(t[k]) {
        assert t[k] == o.spaces[k];
      }
      RunEndAtLeast(t, 0, |o.spaces|, Space);
      SearchOwnedTailComplete(t, m, o);
    }
  }

  // ---------------------------------------------------------------------
  // ruleLineWithoutOwnersPattern:
  //   ^(?<filesPattern>[^\s]+)(?<spaces>\s*)(?:#(?<comment>.*))?$

  datatype BareRule = BareRule(filesPattern: string, tail: BareTail)

  ghost predicate IsBareRule(s: string, r: BareRule) {
    && r.filesPattern != [] && AllOf(r.filesPattern, NonSpace)
    && r.filesPattern <= s
    && IsBareTail(s[|r.filesPattern|..], r.tail)
  }

  /** Backtracking over the length of `[^\s]+`, longest first. */
  function SearchBareRule(s: string, k: nat): Option<BareRule>
    requires k <= |s|
  {
    if k == 0 then None
    else
      match MatchBareTail(s[k..])
      case Some(b) => Some(BareRule(s[..k], b))
      case None => SearchBareRule(s, k - 1)
  }

  function MatchBareRule(s: string): Option<BareRule> {
    SearchBareRule(s, RunEnd(s, 0, NonSpace))
  }

  /** What the search returns is the split at some position up to `k`
      where the ownerless tail matches. */
  lemma {:induction false} SearchBareRuleFound(s: string, k: nat)
    requires k <= |s|
    ensures var r := SearchBareRule(s, k);
            r.Some? ==> exists i :: 0 < i <= k && r == Some(BareRule(s[..i], r.value.tail))
                                    && MatchBareTail(s[i..]) == Some(r.value.tail)
  {
    if k > 0 && MatchBareTail(s[k..]).None? {
      SearchBareRuleFound(s, k - 1);
    }
  }

  lemma SearchBareRuleSound(s: string, k: nat)
    requires k <= |s|
    requires forall j :: 0 <= j < k ==> In(s[j], NonSpace)
    ensures SearchBareRule(s, k).Some? ==>
              IsBareRule(s, SearchBareRule(s, k).value) && |SearchBareRule(s, k).value.filesPattern| <= k
  {
    SearchBareRuleFound(s, k);
    var r := SearchBareRule(s, k);
    if r.Some? {
      var i :| 0 < i <= k && r == Some(BareRule(s[..i], r.value.tail)) && MatchBareTail(s[i..]) == Some(r.value.tail);
      MatchBareTailExact(s[i..], r.value.tail);
      AllOfPrefix(s, i, NonSpace);
    }
  }

  /** Searching down from `k` finds the split at `n` unless it finds one
      with a longer files pattern first. */
  lemma {:induction false} SearchBareRuleReaches(s: string, k: nat, n: nat, b: BareTail)
    requires 0 < n <= k <= |s|
    requires MatchBareTail(s[n..]) == Some(b)
    ensures SearchBareRule(s, k).Some?
    ensures SearchBareRule(s, k).value == BareRule(s[..n], b) || n < |SearchBareRule(s, k).value.filesPattern|
    decreases k
  {
    if k > n && MatchBareTail(s[k..]).None? {
      SearchBareRuleReaches(s, k - 1, n, b);
    }
  }

  lemma SearchBareRuleComplete(s: string, k: nat, r: BareRule)
    requires IsBareRule(s, r) && |r.filesPattern| <= k <= |s|
    ensures SearchBareRule(s, k).Some?
    ensures r == SearchBareRule(s, k).value || |r.filesPattern| < |SearchBareRule(s, k).value.filesPattern|
  {
    var n := |r.filesPattern|;
    MatchBareTailExact(s[n..], r.tail);
    assert s[..n] == r.filesPattern;
    SearchBareRuleReaches(s, k, n, r.tail);
  }

  /** The ownerless rule expression matches when some decomposition exists,
      and backtracking picks the one with the longest files pattern. */
  lemma MatchBareRuleCorrect(s: string)
    ensures MatchBareRule(s).Some? ==> IsBareRule(s, MatchBareRule(s).value)
    ensures forall r :: IsBareRule(s, r) ==>
              MatchBareRule(s).Some? &&
              (r == MatchBareRule(s).value || |r.filesPattern| < |MatchBareRule(s).value.filesPattern|)
  {
    var n := RunEnd(s, 0, NonSpace);
    SearchBareRuleSound(s, n);
    forall r | IsBareRule(s, r)
      ensures MatchBareRule(s).Some? &&
              (r == MatchBareRule(s).value || |r.filesPattern| < |MatchBareRule(s).value.filesPattern|)
    {
      forall j | 0 <= j < |r.filesPattern| ensures In(s[j], NonSpace) {
        assert s[j] == r.filesPattern[j];
      }
      RunEndAtLeast(s, 0, |r.filesPattern|, NonSpace);
      SearchBareRuleComplete(s, n, r);
    }
  }

  // ---------------------------------------------------------------------
  // ruleLinePattern:
  //   ^(?<filesPattern>[^\s]+)(?<spaces>\s+)(?<ownerNames>[^#]+)(?:#(?<comment>.*))?$

  datatype OwnedRule = OwnedRule(filesPattern: string, tail: OwnedTail)

  ghost predicate IsOwnedRule(s: string, r: OwnedRule) {
    && r.filesPattern != [] && AllOf(r.filesPattern, NonSpace)
    && r.filesPattern <= s
    && IsOwnedTail(s[|r.filesPattern|..], r.tail)
  }

  function MatchOwnedRule(s: string): Option<OwnedRule> {
    var n := RunEnd(s, 0, NonSpace);
    if n == 0 then None
    else
      match MatchOwnedTail(s[n..])
      case None => None
      case Some(o) => Some(OwnedRule(s[..n], o))
  }

  /** The rule expression matches when some decomposition exists; the files
      pattern is then the whole first run of non-space characters, and
      backtracking picks the longest `\s+` after it. */
  lemma MatchOwnedRuleCorrect(s: string)
    ensures MatchOwnedRule(s).Some? ==> IsOwnedRule(s, MatchOwnedRule(s).value)
    ensures forall r :: IsOwnedRule(s, r) ==>
              && MatchOwnedRule(s).Some?
              && r.filesPattern == MatchOwnedRule(s).value.filesPattern
              && (r == MatchOwnedRule(s).value || |r.tail.spaces| < |MatchOwnedRule(s).value.tail.spaces|)
  {
    var n := RunEnd(s, 0, NonSpace);
    MatchOwnedTailCorrect(s[n..]);
    forall r | IsOwnedRule(s, r)
      ensures && MatchOwnedRule(s).Some?
              && r.filesPattern == MatchOwnedRule(s).value.filesPattern
              && (r == MatchOwnedRule(s).value || |r.tail.spaces| < |MatchOwnedRule(s).value.tail.spaces|)
    {
      var k := |r.filesPattern|;
      forall j | 0 <= j < k ensures In(s[j], NonSpace) {
        assert s[j] == r.filesPattern[j];
      }
      assert s[k..][0] == r.tail.spaces[0];
      RunEndUnique(s, 0, k, NonSpace);
    }
  }

  // ---------------------------------------------------------------------
  // The common start of the two section expressions:
  //   ^(?<optionalIndicator>\^)?\[(?<name>[^\]]+)\](?:\[(?<minApprovers>[0-9]+)\])?

  datatype SectionHead = SectionHead(optional: bool, name: string, minApprovers: Option<string>)

  function ApproversText(minApprovers: Option<string>): string {
    match minApprovers
    case None => ""
    case Some(d) => "[" + d + "]"
  }

  function HeadText(h: SectionHead): string {
    (if h.optional then "^" else "") + "[" + h.name + "]" + ApproversText(h.minApprovers)
  }

  ghost predicate IsApprovers(minApprovers: Option<string>) {
    minApprovers.Some? ==> minApprovers.value != [] && AllOf(minApprovers.value, Digit)
  }

  ghost predicate IsHead(h: SectionHead) {
    h.name != [] && AllOf(h.name, NoCloseBracket) && IsApprovers(h.minApprovers)
  }

  /** `(?:\[([0-9]+)\])?` at index `q`: taken whenever it can be (greedy `?`). */
  function MatchApprovers(s: string, q: nat): Option<string>
    requires q <= |s|
  {
    if q < |s| && s[q] == '[' then
      var f := RunEnd(s, q + 1, Digit);
      if f > q + 1 && f < |s| && s[f] == ']' then Some(s[q + 1..f]) else None
    else
      None
  }

  /** The start of a section heading. */
  function MatchHead(s: string): Option<SectionHead> {
    var optional := s != [] && s[0] == '^';
    var i := if optional then 1 else 0;
    if i < |s| && s[i] == '[' then
      var e := RunEnd(s, i + 1, NoCloseBracket);
      if e == i + 1 || e == |s| then None
      else Some(SectionHead(optional, s[i + 1..e], MatchApprovers(s, e + 1)))
    else
      None
  }

  lemma PrefixJoin(a: string, b: string, s: string)
    requires a <= s && b <= s[|a|..]
    ensures a + b <= s
  {
    assert (a + b) == s[..|a| + |b|] by {
      forall k | 0 <= k < |a| + |b| ensures (a + b)[k] == s[k] {
        if k >= |a| {
          assert b[k - |a|] == s[|a|..][k - |a|];
        }
      }
    }
  }

  lemma PrefixSplit(a: string, b: string, s: string)
    requires a + b <= s
    ensures a <= s && b <= s[|a|..]
  {
    assert a == (a + b)[..|a|];
    forall k | 0 <= k < |b| ensures b[k] == s[|a|..][k] {
      assert b[k] == (a + b)[|a| + k];
    }
  }

  lemma MatchApproversSound(s: string, q: nat)
    requires q <= |s|
    ensures IsApprovers(MatchApprovers(s, q)) && ApproversText(MatchApprovers(s, q)) <= s[q..]
  {
    var a := MatchApprovers(s, q);
    if a.Some? {
      var d := a.value;
      var f := q + 1 + |d|;
      assert s[q..f + 1] == "[" + d + "]";
    }
  }

  lemma MatchApproversUnique(s: string, q: nat, a: Option<string>)
    requires q <= |s|
    requires IsApprovers(a) && ApproversText(a) <= s[q..]
    requires a.None? ==> q == |s| || s[q] != '['
    ensures MatchApprovers(s, q) == a
  {
    if a.Some? {
      var d := a.value;
      var f := q + 1 + |d|;
      assert s[q..f + 1] == "[" + d + "]";
      forall k | q + 1 <= k < f ensures IsDigit(s[k]) {
        assert s[k] == d[k - q - 1];
      }
      RunEndUnique(s, q + 1, f, Digit);
      assert s[q + 1..f] == d;
    }
  }

  /** The heading start up to its closing bracket. */
  function NameText(optional: bool, name: string): string {
    (if optional then "^" else "") + "[" + name + "]"
  }

  lemma HeadTextSplit(h: SectionHead)
    ensures HeadText(h) == NameText(h.optional, h.name) + ApproversText(h.minApprovers)
  {
  }

  lemma NameTextAt(s: string, optional: bool, i: nat, e: nat)
    requires i == (if optional then 1 else 0) && i < e < |s|
    requires optional ==> s[0] == '^'
    requires s[i] == '[' && s[e] == ']'
    ensures NameText(optional, s[i + 1..e]) == s[..e + 1]
  {
  }

  lemma MatchHeadSound(s: string)
    ensures MatchHead(s).Some? ==> IsHead(MatchHead(s).value) && HeadText(MatchHead(s).value) <= s
  {
    var m := MatchHead(s);
    if m.Some? {
      var h := m.value;
      var i := if h.optional then 1 else 0;
      var e := RunEnd(s, i + 1, NoCloseBracket);
      HeadAt(s, h.optional, i, e);
    }
  }

  /** A bracketed name from `i` to `e`, followed by what the approvers
      expression reads after it, is a valid heading start of `s`. */
  lemma HeadAt(s: string, optional: bool, i: nat, e: nat)
    requires i == (if optional then 1 else 0) && i + 1 < e < |s|
    requires optional ==> s[0] == '^'
    requires s[i] == '[' && s[e] == ']'
    requires forall k :: i + 1 <= k < e ==> In(s[k], NoCloseBracket)
    ensures var h := SectionHead(optional, s[i + 1..e], MatchApprovers(s, e + 1));
            IsHead(h) && HeadText(h) <= s
  {
    var h := SectionHead(optional, s[i + 1..e], MatchApprovers(s, e + 1));
    forall k | 0 <= k < |h.name| ensures In(h.name[k], NoCloseBracket) {
      assert h.name[k] == s[i + 1 + k];
    }
    NameTextAt(s, optional, i, e);
    MatchApproversSound(s, e + 1);
    HeadTextSplit(h);
    PrefixJoin(NameText(h.optional, h.name), ApproversText(h.minApprovers), s);
  }

  lemma NameTextUnique(s: string, optional: bool, name: string)
    requires name != [] && AllOf(name, NoCloseBracket)
    requires NameText(optional, name) <= s
    ensures var i := if optional then 1 else 0;
            && (s != [] && s[0] == '^' <==> optional)
            && s[i] == '['
            && RunEnd(s, i + 1, NoCloseBracket) == i + 1 + |name|
            && s[i + 1..i + 1 + |name|] == name
  {
    var i := if optional then 1 else 0;
    var e := i + 1 + |name|;
    var n := NameText(optional, name);
    assert s[i] == n[i] == '[';
    forall k | i + 1 <= k < e ensures In(s[k], NoCloseBracket) {
      assert s[k] == n[k] == name[k - i - 1];
    }
    assert s[e] == n[e] == ']';
    RunEndUnique(s, i + 1, e, NoCloseBracket);
  }

  /** A valid heading start that is not followed by `[` is the one found. */
  lemma MatchHeadUnique(s: string, h: SectionHead)
    requires IsHead(h) && HeadText(h) <= s
    requires |HeadText(h)| == |s| || s[|HeadText(h)|] != '['
    ensures MatchHead(s) == Some(h)
  {
    var n := NameText(h.optional, h.name);
    HeadTextSplit(h);
    PrefixSplit(n, ApproversText(h.minApprovers), s);
    NameTextUnique(s, h.optional, h.name);
    MatchApproversUnique(s, |n|, h.minApprovers);
  }

  // ---------------------------------------------------------------------
  // sectionLineWithoutOwnersPattern:
  //   <head>(?:\s*)(?:#(?<comment>.*))?$

  datatype BareSection = BareSection(head: SectionHead, tail: BareTail)

  ghost predicate IsBareSection(s: string, x: BareSection) {
    && IsHead(x.head)
    && HeadText(x.head) <= s
    && IsBareTail(s[|HeadText(x.head)|..], x.tail)
  }

  function MatchBareSection(s: string): Option<BareSection> {
    match MatchHead(s)
    case None => None
    case Some(h) =>
      if |HeadText(h)| <= |s| then
        match MatchBareTail(s[|HeadText(h)|..])
        case None => None
        case Some(b) => Some(BareSection(h, b))
      else None
  }

  /** The ownerless section expression matches in at most one way, and the
      matcher finds it. */
  lemma MatchBareSectionExact(s: string, x: BareSection)
    ensures MatchBareSection(s) == Some(x) <==> IsBareSection(s, x)
  {
    MatchHeadSound(s);
    if MatchBareSection(s) == Some(x) {
      MatchBareTailExact(s[|HeadText(x.head)|..], x.tail);
    }
    if IsBareSection(s, x) {
      var n := |HeadText(x.head)|;
      MatchBareTailExact(s[n..], x.tail);
      if n < |s| {
        assert s[n] == s[n..][0];
        assert s[n..][0] == (x.tail.spaces + CommentText(x.tail.comment))[0];
      }
      MatchHeadUnique(s, x.head);
    }
  }

  // ---------------------------------------------------------------------
  // sectionLinePattern:
  //   <head>(?<spaces>\s+)(?<userNames>[^#]+)(?:#(?<comment>.*))?$

  datatype OwnedSection = OwnedSection(head: SectionHead, tail: OwnedTail)

  ghost predicate IsOwnedSection(s: string, x: OwnedSection) {
    && IsHead(x.head)
    && HeadText(x.head) <= s
    && IsOwnedTail(s[|HeadText(x.head)|..], x.tail)
  }

  function MatchOwnedSection(s: string): Option<OwnedSection> {
    match MatchHead(s)
    case None => None
    case Some(h) =>
      if |HeadText(h)| <= |s| then
        match MatchOwnedTail(s[|HeadText(h)|..])
        case None => None
        case Some(o) => Some(OwnedSection(h, o))
      else None
  }

  /** The section expression with owners matches when some decomposition
      exists; the heading is then unique and backtracking picks the longest
      `\s+` after it. */
  lemma MatchOwnedSectionCorrect(s: string)
    ensures MatchOwnedSection(s).Some? ==> IsOwnedSection(s, MatchOwnedSection(s).value)
    ensures forall x :: IsOwnedSection(s, x) ==>
              && MatchOwnedSection(s).Some?
              && x.head == MatchOwnedSection(s).value.head
              && (x == MatchOwnedSection(s).value || |x.tail.spaces| < |MatchOwnedSection(s).value.tail.spaces|)
  {
    MatchHeadSound(s);
    if MatchHead(s).Some? && |HeadText(MatchHead(s).value)| <= |s| {
      MatchOwnedTailCorrect(s[|HeadText(MatchHead(s).value)|..]);
    }
    forall x | IsOwnedSection(s, x)
      ensures && MatchOwnedSection(s).Some?
              && x.head == MatchOwnedSection(s).value.head
              && (x == MatchOwnedSection(s).value || |x.tail.spaces| < |MatchOwnedSection(s).value.tail.spaces|)
    {
      var n := |HeadText(x.head)|;
      assert s[n] == s[n..][0] == x.tail.spaces[0];
      MatchHeadUnique(s, x.head);
      MatchOwnedTailCorrect(s[n..]);
    }
  }

  // ---------------------------------------------------------------------
  // userOrGroupPattern `^@.+$` and emailPattern `^[^@]+@.+$`

  predicate IsUserOrGroup(s: string) {
    |s| >= 2 && s[0] == '@' && '\n' !in s[1..]
  }

  predicate IsEmail(s: string) {
    var i := RunEnd(s, 0, NoAt);
    1 <= i && i + 1 < |s| && '\n' !in s[i + 1..]
  }

  /** `s` reads as an e-mail with its first `@` at `i`: a non-empty run
      without `@`, the `@`, and a non-empty remainder without line feeds. */
  predicate EmailSplitAt(s: string, i: int) {
    1 <= i < |s| - 1 && s[i] == '@' && AllOf(s[..i], NoAt) && '\n' !in s[i + 1..]
  }

  lemma IsEmailExact(s: string)
    ensures IsEmail(s) <==> exists i :: EmailSplitAt(s, i)
  {
    var i := RunEnd(s, 0, NoAt);
    if IsEmail(s) {
      assert AllOf(s[..i], NoAt);
      assert EmailSplitAt(s, i);
    }
    if exists j :: EmailSplitAt(s, j) {
      var j :| EmailSplitAt(s, j);
      forall k | 0 <= k < j ensures In(s[k], NoAt) {
        assert s[k] == s[..j][k];
      }
      RunEndUnique(s, 0, j, NoAt);
    }
  }

  // ---------------------------------------------------------------------
  // ownerSeparatorPattern `\s+`, used through Regexp.Split(s, -1)

  /** Regexp.Split(s, -1) with `\s+`: the pieces between maximal runs of
      white space, with an empty first (last) piece when `s` starts (ends)
      with white space. */
  function SplitOnSpaces(s: string): (pieces: seq<string>)
    ensures |pieces| >= 1
    decreases |s|
  {
    var a := RunEnd(s, 0, NonSpace);
    if a == |s| then [s]
    else
      var b := RunEnd(s, a, Space);
      [s[..a]] + SplitOnSpaces(s[b..])
  }

  function NonEmpty(pieces: seq<string>): seq<string> {
    if pieces == [] then []
    else (if pieces[0] == [] then [] else [pieces[0]]) + NonEmpty(pieces[1..])
  }

  lemma {:induction false} NonEmptySnoc(pieces: seq<string>, p: string)
    ensures NonEmpty(pieces + [p]) == NonEmpty(pieces) + (if p == [] then [] else [p])
  {
    if pieces == [] {
      assert [p][1..] == [];
    } else {
      assert (pieces + [p])[1..] == pieces[1..] + [p];
      NonEmptySnoc(pieces[1..], p);
    }
  }

  /** The white-space separated words of `s`, in order. */
  function Words(s: string): seq<string>
    decreases |s|
  {
    if s == [] then []
    else if IsReSpace(s[0]) then Words(s[1..])
    else
      var e := RunEnd(s, 0, NonSpace);
      [s[..e]] + Words(s[e..])
  }

  /** Words are non-empty and hold no white space. */
  lemma {:induction false} WordsShape(s: string)
    ensures forall k :: 0 <= k < |Words(s)| ==> Words(s)[k] != [] && AllOf(Words(s)[k], NonSpace)
    decreases |s|
  {
    if s != [] {
      if IsReSpace(s[0]) {
        WordsShape(s[1..]);
      } else {
        var e := RunEnd(s, 0, NonSpace);
        WordsShape(s[e..]);
        AllOfSlice(s, 0, e, NonSpace);
        assert s[0..e] == s[..e];
      }
    }
  }

  /** The words of a string are drawn from its characters: a class every
      character of `s` is in holds every character of every word. */
  lemma {:induction false} WordsWithin(s: string, p: CharClass)
    requires AllOf(s, p)
    ensures forall k :: 0 <= k < |Words(s)| ==> AllOf(Words(s)[k], p)
    decreases |s|
  {
    if s != [] {
      if IsReSpace(s[0]) {
        AllOfSlice(s, 1, |s|, p);
        assert s[1..|s|] == s[1..];
        WordsWithin(s[1..], p);
      } else {
        var e := RunEnd(s, 0, NonSpace);
        AllOfSlice(s, e, |s|, p);
        assert s[e..|s|] == s[e..];
        WordsWithin(s[e..], p);
        AllOfSlice(s, 0, e, p);
        assert s[0..e] == s[..e];
      }
    }
  }

  lemma {:induction false} WordsOfSpaces(sp: string, rest: string)
    requires AllOf(sp, Space)
    ensures Words(sp + rest) == Words(rest)
    decreases |sp|
  {
    if sp != [] {
      assert (sp + rest)[0] == sp[0];
      assert (sp + rest)[1..] == sp[1..] + rest;
      assert AllOf(sp[1..], Space) by {
        forall k | 0 <= k < |sp| - 1 ensures IsReSpace(sp[1..][k]) {
          assert sp[1..][k] == sp[k + 1];
        }
      }
      assert IsReSpace(sp[0]);
      WordsOfSpaces(sp[1..], rest);
    } else {
      assert sp + rest == rest;
    }
  }

  /** A word is its own only word. */
  lemma WordsOfWord(w: string)
    requires w != [] && AllOf(w, NonSpace)
    ensures Words(w) == [w]
  {
    assert In(w[0], NonSpace);
    RunEndUnique(w, 0, |w|, NonSpace);
    assert w[..|w|] == w;
    assert w[|w|..] == [];
  }

  /** White space separates words: the words of `a + sp + b` are those of `a`
      followed by those of `b`. */
  lemma {:induction false} WordsConcat(a: string, sp: string, b: string)
    requires sp != [] && AllOf(sp, Space)
    ensures Words(a + sp + b) == Words(a) + Words(b)
    decreases |a|
  {
    var s := a + sp + b;
    if a == [] {
      assert s == sp + b;
      WordsOfSpaces(sp, b);
    } else if IsReSpace(a[0]) {
      assert s[1..] == a[1..] + sp + b;
      WordsConcat(a[1..], sp, b);
    } else {
      var e := RunEnd(a, 0, NonSpace);
      assert s == a + (sp + b);
      RunEndAppend(a, sp + b, NonSpace);
      assert s[..e] == a[..e];
      assert s[e..] == a[e..] + sp + b;
      WordsConcat(a[e..], sp, b);
    }
  }

  /** A gap of white space splits the words. */
  lemma WordsAtGap(s: string, a: nat, b: nat)
    requires a < b <= |s|
    requires forall k :: a <= k < b ==> In(s[k], Space)
    ensures Words(s) == Words(s[..a]) + Words(s[b..])
  {
    AllOfSlice(s, a, b, Space);
    SliceSplit(s, a, b);
    WordsConcat(s[..a], s[a..b], s[b..]);
  }

  /** `AllOf` for a slice. */
  lemma AllOfSlice(s: string, a: nat, b: nat, p: CharClass)
    requires a <= b <= |s|
    requires forall k :: a <= k < b ==> In(s[k], p)
    ensures AllOf(s[a..b], p)
  {
    forall k | 0 <= k < b - a ensures In(s[a..b][k], p) {
      assert s[a..b][k] == s[a + k];
    }
  }

  lemma NonEmptyCons(x: string, rest: seq<string>)
    ensures NonEmpty([x] + rest) == (if x == [] then [] else [x]) + NonEmpty(rest)
  {
    assert ([x] + rest)[1..] == rest;
  }

  /** Dropping the empty pieces of the split leaves exactly the words. */
  lemma {:induction false} NonEmptySplitOnSpaces(s: string)
    ensures NonEmpty(SplitOnSpaces(s)) == Words(s)
    decreases |s|
  {
    var a := RunEnd(s, 0, NonSpace);
    if a == |s| {
      if s != [] {
        WordsOfWord(s);
      }
    } else {
      var b := RunEnd(s, a, Space);
      NonEmptySplitOnSpaces(s[b..]);
      NonEmptyCons(s[..a], SplitOnSpaces(s[b..]));
      WordsAtGap(s, a, b);
      if a > 0 {
        AllOfSlice(s, 0, a, NonSpace);
        assert s[0..a] == s[..a];
        WordsOfWord(s[..a]);
      }
    }
  }
}
