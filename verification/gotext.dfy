/** Models of the parts of Go's standard library that the CODEOWNERS core
    relies on: the character classes of RE2 and of package unicode,
    strings.TrimSpace, strings.Split on "\n", strconv.Atoi, and the decimal
    output of fmt's %d and %4d verbs. Strings are sequences of Unicode scalar
    values. */
module GoText {
  import opened Wrappers

  /** RE2's `\s`: tab, newline, form feed, carriage return and space.
      The vertical tab is not in it. */
  predicate IsReSpace(c: char) {
    c == '\t' || c == '\n' || c == '\U{C}' || c == '\r' || c == ' '
  }

  /** unicode.IsSpace: the characters strings.TrimSpace removes. */
  predicate IsUnicodeSpace(c: char) {
    ('\t' <= c <= '\r') || c == ' ' || c == '\U{85}' || c == '\U{A0}' || c == '\U{1680}'
    || ('\U{2000}' <= c <= '\U{200A}') || c == '\U{2028}' || c == '\U{2029}'
    || c == '\U{202F}' || c == '\U{205F}' || c == '\U{3000}'
  }

  predicate IsDigit(c: char) {
    '0' <= c <= '9'
  }

  /** The character classes the core's expressions and trimming use:
      `\s`, `[^\s]`, `.` (anything but a line feed), unicode.IsSpace, `[0-9]`,
      `[^#]`, `[^@]` and `[^\]]`. */
  datatype CharClass = Space | NonSpace | Dot | UniSpace | Digit | NoHash | NoAt | NoCloseBracket

  predicate In(c: char, p: CharClass) {
    match p
    case Space => IsReSpace(c)
    case NonSpace => !IsReSpace(c)
    case Dot => c != '\n'
    case UniSpace => IsUnicodeSpace(c)
    case Digit => IsDigit(c)
    case NoHash => c != '#'
    case NoAt => c != '@'
    case NoCloseBracket => c != ']'
  }

  predicate AllOf(s: string, p: CharClass) {
    forall k :: 0 <= k < |s| ==> In(s[k], p)
  }

  /** The end of the longest run of characters satisfying `p` that starts at `i`. */
  function RunEnd(s: string, i: nat, p: CharClass): (e: nat)
    requires i <= |s|
    ensures i <= e <= |s|
    ensures forall k :: i <= k < e ==> In(s[k], p)
    ensures e == |s| || !In(s[e], p)
    decreases |s| - i
  {
    if i == |s| || !In(s[i], p) then i else RunEnd(s, i + 1, p)
  }

  /** A run that starts at `i` and is followed by a character outside `p`
      (or by the end) is the longest one. */
  lemma RunEndUnique(s: string, i: nat, e: nat, p: CharClass)
    requires i <= e <= |s|
    requires forall k :: i <= k < e ==> In(s[k], p)
    requires e == |s| || !In(s[e], p)
    ensures RunEnd(s, i, p) == e
    decreases e - i
  {
    if i < e {
      RunEndUnique(s, i + 1, e, p);
    }
  }

  /** Every run of `p` characters from `i` reaches at least as far as the longest one. */
  lemma RunEndAtLeast(s: string, i: nat, e: nat, p: CharClass)
    requires i <= e <= |s|
    requires forall k :: i <= k < e ==> In(s[k], p)
    ensures RunEnd(s, i, p) >= e
    decreases e - i
  {
    if i < e {
      RunEndAtLeast(s, i + 1, e, p);
    }
  }

  /** A run that stops at the end of `a` stops there in `a + b` too when `b`
      starts outside the class. */
  lemma RunEndAppend(a: string, b: string, p: CharClass)
    requires b == [] || !In(b[0], p)
    ensures RunEnd(a + b, 0, p) == RunEnd(a, 0, p)
  {
    var s := a + b;
    var e := RunEnd(a, 0, p);
    forall k | 0 <= k < e ensures In(s[k], p) {
      assert s[k] == a[k];
    }
    if e < |a| {
      assert s[e] == a[e];
    } else if e < |s| {
      assert s[e] == b[0];
    }
    RunEndUnique(s, 0, e, p);
  }

  // ---------------------------------------------------------------------
  // strings.TrimSpace

  function FirstNonSpace(s: string): (i: nat)
    ensures i <= |s|
    ensures forall k :: 0 <= k < i ==> IsUnicodeSpace(s[k])
    ensures i < |s| ==> !IsUnicodeSpace(s[i])
  {
    RunEnd(s, 0, UniSpace)
  }

  function EndNonSpace(s: string): (j: nat)
    ensures j <= |s|
    ensures forall k :: j <= k < |s| ==> IsUnicodeSpace(s[k])
    ensures j > 0 ==> !IsUnicodeSpace(s[j - 1])
  {
    if s == [] || !IsUnicodeSpace(s[|s| - 1]) then |s| else EndNonSpace(s[..|s| - 1])
  }

  /** strings.TrimSpace: drops the leading and trailing Unicode white space. */
  function TrimSpace(s: string): (r: string)
    ensures r == [] <==> AllOf(s, UniSpace)
    ensures r != [] ==> !IsUnicodeSpace(r[0]) && !IsUnicodeSpace(r[|r| - 1])
    ensures r != [] ==> FirstNonSpace(s) + |r| == EndNonSpace(s)
                        && r == s[FirstNonSpace(s)..EndNonSpace(s)]
  {
    var i := FirstNonSpace(s);
    var j := EndNonSpace(s);
    if j <= i then [] else s[i..j]
  }

  /** A string with no white space at either end is its own trim. */
  lemma TrimSpaceOfTrimmed(s: string)
    requires s != [] ==> !IsUnicodeSpace(s[0]) && !IsUnicodeSpace(s[|s| - 1])
    ensures TrimSpace(s) == s
  {
    if s != [] {
      assert FirstNonSpace(s) == 0;
      assert EndNonSpace(s) == |s|;
    }
  }

  /** Trailing white space after a trimmed string is dropped. */
  lemma TrimSpaceTrailing(d: string, sp: string)
    requires AllOf(sp, UniSpace)
    requires d != [] && !IsUnicodeSpace(d[0]) && !IsUnicodeSpace(d[|d| - 1])
    ensures TrimSpace(d + sp) == d
  {
    var s := d + sp;
    assert s[0] == d[0];
    RunEndUnique(s, 0, 0, UniSpace);
    EndNonSpaceTrailing(d, sp);
    assert s[0..|d|] == d;
  }

  lemma {:induction false} EndNonSpaceTrailing(d: string, sp: string)
    requires AllOf(sp, UniSpace)
    requires d != [] && !IsUnicodeSpace(d[|d| - 1])
    ensures EndNonSpace(d + sp) == |d|
    decreases |sp|
  {
    var s := d + sp;
    if sp == [] {
      assert s == d;
    } else {
      var init := sp[..|sp| - 1];
      assert s[|s| - 1] == sp[|sp| - 1];
      assert s[..|s| - 1] == d + init;
      assert AllOf(init, UniSpace) by {
        forall k | 0 <= k < |init| ensures In(init[k], UniSpace) {
          assert init[k] == sp[k];
        }
      }
      EndNonSpaceTrailing(d, init);
    }
  }

  /** Leading white space before a trimmed string is dropped. */
  lemma TrimSpaceAfterSpaces(sp: string, d: string)
    requires AllOf(sp, UniSpace)
    requires d != [] && !IsUnicodeSpace(d[0]) && !IsUnicodeSpace(d[|d| - 1])
    ensures TrimSpace(sp + d) == d
  {
    var s := sp + d;
    forall k | 0 <= k < |sp| ensures IsUnicodeSpace(s[k]) {
      assert s[k] == sp[k];
    }
    assert s[|sp|] == d[0];
    RunEndUnique(s, 0, |sp|, UniSpace);
    assert EndNonSpace(s) == |s|;
    assert s[|sp|..|s|] == d;
  }

  // ---------------------------------------------------------------------
  // strings.Split(s, "\n")

  function CountNewlines(s: string): nat {
    if s == [] then 0 else (if s[0] == '\n' then 1 else 0) + CountNewlines(s[1..])
  }

  function JoinLines(lines: seq<string>): string
    requires |lines| >= 1
  {
    if |lines| == 1 then lines[0] else lines[0] + "\n" + JoinLines(lines[1..])
  }

  /** strings.Split(s, "\n"): the pieces between line feeds, carriage
      returns kept. */
  function SplitLines(s: string): (lines: seq<string>)
    ensures |lines| == CountNewlines(s) + 1
    ensures forall k :: 0 <= k < |lines| ==> '\n' !in lines[k]
    ensures JoinLines(lines) == s
  {
    if s == [] then [[]]
    else
      var rest := SplitLines(s[1..]);
      if s[0] == '\n' then
        [[]] + rest
      else
        assert JoinLines(rest) == rest[0] + JoinLines([[]] + rest[1..]) by {
          if |rest| > 1 {
            assert ([[]] + rest[1..])[1..] == rest[1..];
          }
        }
        [[s[0]] + rest[0]] + rest[1..]
  }

  /** A line without a line feed, then a line feed, splits off as the first piece. */
  lemma {:induction false} SplitLinesCons(a: string, b: string)
    requires '\n' !in a
    ensures SplitLines(a + "\n" + b) == [a] + SplitLines(b)
    decreases |a|
  {
    if a == [] {
      assert a + "\n" + b == "\n" + b;
      assert ("\n" + b)[1..] == b;
    } else {
      assert (a + "\n" + b)[1..] == a[1..] + "\n" + b;
      SplitLinesCons(a[1..], b);
      assert [a[0]] + a[1..] == a;
    }
  }

  /** The three parts of a concatenation can be cut out of it again. */
  lemma ConcatSlices(a: string, b: string, c: string)
    ensures (a + b + c)[..|a|] == a
    ensures (a + b + c)[|a|..|a| + |b|] == b
    ensures (a + b + c)[|a| + |b|..] == c
  {
  }

  lemma SliceSplit(s: string, a: nat, b: nat)
    requires a <= b <= |s|
    ensures s == s[..a] + s[a..b] + s[b..]
  {
  }

  lemma AppendAssoc(a: string, b: string, c: string, d: string)
    ensures a + b + c + d == a + (b + c + d)
  {
  }

  /** Lines each followed by a line feed, the way a report is built line by line. */
  function Unlines(ls: seq<string>): string {
    if ls == [] then "" else ls[0] + "\n" + Unlines(ls[1..])
  }

  lemma {:induction false} UnlinesSnoc(ls: seq<string>, l: string)
    ensures Unlines(ls + [l]) == Unlines(ls) + l + "\n"
  {
    if ls == [] {
      assert [l][1..] == [];
    } else {
      assert (ls + [l])[1..] == ls[1..] + [l];
      UnlinesSnoc(ls[1..], l);
    }
  }

  /** Splitting terminated lines on line feeds gives them back, followed by
      the empty piece after the last line feed. */
  lemma {:induction false} SplitUnlines(ls: seq<string>)
    requires forall k :: 0 <= k < |ls| ==> '\n' !in ls[k]
    ensures SplitLines(Unlines(ls)) == ls + [""]
  {
    if ls != [] {
      SplitLinesCons(ls[0], Unlines(ls[1..]));
      SplitUnlines(ls[1..]);
      assert ls == [ls[0]] + ls[1..];
    }
  }

  lemma SplitUnlinesCons(h: string, ls: seq<string>)
    requires '\n' !in h
    requires forall k :: 0 <= k < |ls| ==> '\n' !in ls[k]
    ensures SplitLines(Unlines([h] + ls)) == [h] + ls + [""]
  {
    var all := [h] + ls;
    forall k | 0 <= k < |all| ensures '\n' !in all[k] {
      if k > 0 {
        assert all[k] == ls[k - 1];
      }
    }
    SplitUnlines(all);
  }

  /** Terminated lines start with the first line and its line feed. */
  lemma UnlinesPrefix(h: string, ls: seq<string>)
    ensures Unlines([h] + ls)[..|h| + 1] == h + "\n"
  {
    assert ([h] + ls)[1..] == ls;
    assert Unlines([h] + ls) == h + "\n" + Unlines(ls);
  }

  // ---------------------------------------------------------------------
  // Decimal numbers: strconv.Atoi and fmt's %d

  const MaxInt: int := 0x7FFF_FFFF_FFFF_FFFF
  const MinInt: int := -0x8000_0000_0000_0000

  function DigitValue(c: char): nat
    requires IsDigit(c)
  {
    (c as int) - ('0' as int)
  }

  function DigitsValue(d: string): nat
    requires AllOf(d, Digit)
  {
    if d == [] then 0 else DigitsValue(d[..|d| - 1]) * 10 + DigitValue(d[|d| - 1])
  }

  /** strconv.Atoi on a 64-bit platform: an optional sign and at least one
      ASCII digit, in the range of int; anything else is an error (None). */
  function Atoi(s: string): (r: Option<int>)
    ensures r.Some? ==> MinInt <= r.value <= MaxInt
  {
    if s != [] && (s[0] == '+' || s[0] == '-') then
      var d := s[1..];
      if d != [] && AllOf(d, Digit) then
        var v: int := if s[0] == '-' then 0 - (DigitsValue(d) as int) else DigitsValue(d);
        if MinInt <= v <= MaxInt then Some(v) else None
      else None
    else if s != [] && AllOf(s, Digit) && DigitsValue(s) <= MaxInt then
      Some(DigitsValue(s))
    else
      None
  }

  /** The decimal digits of `n`, as %d writes them. */
  function Decimal(n: nat): string {
    if n < 10 then [(('0' as int) + n) as char]
    else Decimal(n / 10) + [(('0' as int) + n % 10) as char]
  }

  /** Decimal writes digits only, without leading zeros, and they denote `n`. */
  lemma {:induction false} DecimalDigits(n: nat)
    ensures Decimal(n) != [] && AllOf(Decimal(n), Digit)
    ensures DigitsValue(Decimal(n)) == n
    ensures Decimal(n)[0] == '0' ==> n == 0
  {
    if n >= 10 {
      DecimalDigits(n / 10);
      var d := Decimal(n);
      assert d[..|d| - 1] == Decimal(n / 10);
    }
  }

  /** fmt's %d on an int. */
  function FormatInt(n: int): string {
    if n < 0 then "-" + Decimal(-n) else Decimal(n)
  }

  /** %d writes a minus sign for negative numbers, then the digits. */
  lemma FormatIntShape(n: int)
    ensures FormatInt(n) != []
    ensures n >= 0 ==> FormatInt(n) == Decimal(n)
    ensures n < 0 ==> FormatInt(n)[0] == '-' && FormatInt(n)[1..] == Decimal(-n)
    ensures AllOf(FormatInt(n)[if n < 0 then 1 else 0..], Digit)
  {
    DecimalDigits(if n < 0 then -n else n);
    if n < 0 {
      assert FormatInt(n)[1..] == Decimal(-n);
    }
  }

  /** %d and Atoi are inverse on the range of int. */
  lemma AtoiFormatInt(n: int)
    requires MinInt <= n <= MaxInt
    ensures Atoi(FormatInt(n)) == Some(n)
  {
    FormatIntShape(n);
    DecimalDigits(if n < 0 then -n else n);
  }

  function Spaces(n: nat): string {
    if n == 0 then [] else [' '] + Spaces(n - 1)
  }

  lemma {:induction false} SpacesShape(n: nat)
    ensures |Spaces(n)| == n
    ensures forall k :: 0 <= k < n ==> Spaces(n)[k] == ' '
  {
    if n > 0 {
      SpacesShape(n - 1);
      assert forall k :: 1 <= k < n ==> Spaces(n)[k] == Spaces(n - 1)[k - 1];
    }
  }

  function PadLeft(s: string, width: nat): string {
    if |s| >= width then s else Spaces(width - |s|) + s
  }

  /** Padding never cuts: `s` ends the result, and only spaces come before it. */
  lemma PadLeftShape(s: string, width: nat)
    ensures |PadLeft(s, width)| == if |s| >= width then |s| else width
    ensures PadLeft(s, width) == Spaces(|PadLeft(s, width)| - |s|) + s
    ensures forall k :: 0 <= k < |PadLeft(s, width)| - |s| ==> PadLeft(s, width)[k] == ' '
    ensures AllOf(Spaces(|PadLeft(s, width)| - |s|), UniSpace)
  {
    if |s| >= width {
      assert PadLeft(s, width) == s;
      assert Spaces(0) == [];
    } else {
      SpacesShape(width - |s|);
    }
    var n := |PadLeft(s, width)| - |s|;
    SpacesShape(n);
    assert forall k :: 0 <= k < n ==> In(Spaces(n)[k], UniSpace);
  }

}
