/** The anomaly report of internal/codeowners/anomalies.go: one line per
    problem found while parsing, under a fixed header. */
module Anomalies {
  import opened Wrappers
  import opened GoText

  /** A problem in a CODEOWNERS file: the line it is on, why, and the line. */
  datatype Anomaly = Anomaly(lineNo: int, reason: string, raw: string)

  const HeaderLine: string := "Syntax errors found in the input:"

  /** The line number as `%4d` writes it. */
  function LineNoField(n: int): string {
    PadLeft(FormatInt(n), 4)
  }

  /** What follows the line number in an anomaly's line. */
  function AfterLineNo(a: Anomaly): string {
    ", " + a.reason + ": \"" + a.raw + "\""
  }

  /** Anomaly.String: `Line %4d, %s: "%s"`. */
  function AnomalyString(a: Anomaly): string {
    "Line " + LineNoField(a.lineNo) + AfterLineNo(a)
  }

  /** The number field is four characters wide for numbers of up to four
      characters and is never cut: a longer number is written in full. */
  lemma LineNoFieldWidth(n: int)
    ensures |LineNoField(n)| == if |FormatInt(n)| >= 4 then |FormatInt(n)| else 4
    ensures |FormatInt(n)| >= 4 ==> LineNoField(n) == FormatInt(n)
    ensures 0 <= n < 1000 ==> |LineNoField(n)| == 4
  {
    PadLeftShape(FormatInt(n), 4);
    if 0 <= n < 1000 {
      DecimalLength(n);
    }
  }

  lemma {:induction false} DecimalLength(n: nat)
    ensures n < 10 ==> |Decimal(n)| == 1
    ensures n < 100 ==> |Decimal(n)| <= 2
    ensures n < 1000 ==> |Decimal(n)| <= 3
  {
    if n >= 10 {
      DecimalLength(n / 10);
    }
  }

  /** The line number field is spaces, then the number, which neither starts
      nor ends with white space and holds no line feed. */
  lemma {:induction false} LineNoFieldShape(n: int)
    ensures var f := LineNoField(n);
            var d := FormatInt(n);
            && f == f[..|f| - |d|] + d
            && AllOf(f[..|f| - |d|], UniSpace)
            && d != [] && !IsUnicodeSpace(d[0]) && !IsUnicodeSpace(d[|d| - 1])
            && '\n' !in f
  {
    var d := FormatInt(n);
    var f := LineNoField(n);
    LineNoFieldPadding(n);
    FormatIntChars(n);
    assert '\n' !in f by {
      PadLeftShape(d, 4);
      forall k | 0 <= k < |f| ensures f[k] != '\n' {
        if k >= |f| - |d| {
          assert f[k] == d[k - (|f| - |d|)];
        }
      }
    }
  }

  lemma {:induction false} LineNoFieldPadding(n: int)
    ensures var f := LineNoField(n);
            var d := FormatInt(n);
            && |d| <= |f|
            && f == f[..|f| - |d|] + d
            && AllOf(f[..|f| - |d|], UniSpace)
  {
    var d := FormatInt(n);
    var f := LineNoField(n);
    PadLeftShape(d, 4);
    assert f[..|f| - |d|] == Spaces(|f| - |d|);
  }

  /** A formatted number holds a minus sign and digits only. */
  lemma {:induction false} FormatIntChars(n: int)
    ensures forall k :: 0 <= k < |FormatInt(n)| ==> FormatInt(n)[k] == '-' || IsDigit(FormatInt(n)[k])
    ensures FormatInt(n) != [] && !IsUnicodeSpace(FormatInt(n)[0]) && !IsUnicodeSpace(FormatInt(n)[|FormatInt(n)| - 1])
  {
    var d := FormatInt(n);
    FormatIntShape(n);
    var digits := d[if n < 0 then 1 else 0..];
    forall k | 0 <= k < |d| ensures d[k] == '-' || IsDigit(d[k]) {
      if !(n < 0 && k == 0) {
        assert d[k] == digits[if n < 0 then k - 1 else k];
      }
    }
  }

  /** The number can be read back from the report line: the field after
      "Line " holds it, padded with spaces on the left. */
  lemma AnomalyStringLineNo(a: Anomaly)
    requires MinInt <= a.lineNo <= MaxInt
    ensures var s := AnomalyString(a);
            var w := |LineNoField(a.lineNo)|;
            && s[..5] == "Line "
            && s[5..5 + w] == LineNoField(a.lineNo)
            && s[5 + w..] == AfterLineNo(a)
            && Atoi(TrimSpace(s[5..5 + w])) == Some(a.lineNo)
  {
    var f := LineNoField(a.lineNo);
    var d := FormatInt(a.lineNo);
    ConcatSlices("Line ", f, AfterLineNo(a));
    LineNoFieldShape(a.lineNo);
    TrimSpaceAfterSpaces(f[..|f| - |d|], d);
    AtoiFormatInt(a.lineNo);
  }

  /** An anomaly's line in the report, without its line feed. */
  function ItemLine(a: Anomaly): string {
    "  " + AnomalyString(a)
  }

  /** The lines of the report for `anomalies`, in order. */
  function ItemLines(anomalies: seq<Anomaly>): seq<string> {
    if anomalies == [] then []
    else ItemLines(anomalies[..|anomalies| - 1]) + [ItemLine(anomalies[|anomalies| - 1])]
  }

  /** One report line per anomaly. */
  lemma {:induction false} ItemLinesLength(anomalies: seq<Anomaly>)
    ensures |ItemLines(anomalies)| == |anomalies|
  {
    if anomalies != [] {
      ItemLinesLength(anomalies[..|anomalies| - 1]);
    }
  }

  /** The `k`th report line is the `k`th anomaly's. */
  lemma {:induction false} ItemLinesAt(anomalies: seq<Anomaly>, k: nat)
    requires k < |anomalies|
    ensures |ItemLines(anomalies)| == |anomalies|
    ensures ItemLines(anomalies)[k] == ItemLine(anomalies[k])
  {
    var init := anomalies[..|anomalies| - 1];
    ItemLinesLength(init);
    if k < |init| {
      ItemLinesAt(init, k);
      assert init[k] == anomalies[k];
    }
  }

  /** Writing one more anomaly's line extends the report by that line. */
  lemma ReportStep(header: string, anomalies: seq<Anomaly>, i: nat)
    requires i < |anomalies|
    ensures header + "\n" + Unlines(ItemLines(anomalies[..i])) + ItemLine(anomalies[i]) + "\n"
            == header + "\n" + Unlines(ItemLines(anomalies[..i + 1]))
  {
    assert anomalies[..i + 1][..i] == anomalies[..i];
    UnlinesSnoc(ItemLines(anomalies[..i]), ItemLine(anomalies[i]));
    AppendAssoc(header + "\n", Unlines(ItemLines(anomalies[..i])), ItemLine(anomalies[i]), "\n");
  }

  /** Anomalies.String. */
  method Report(anomalies: seq<Anomaly>) returns (output: string)
    ensures output == HeaderLine + "\n" + Unlines(ItemLines(anomalies))
  {
    output := HeaderLine + "\n";
    for i := 0 to |anomalies|
      invariant output == HeaderLine + "\n" + Unlines(ItemLines(anomalies[..i]))
    {
      ReportStep(HeaderLine, anomalies, i);
      output := output + ItemLine(anomalies[i]) + "\n";
    }
    assert anomalies[..|anomalies|] == anomalies;
  }

  /** Without anomalies the report is the header line alone. */
  lemma ReportEmpty()
    ensures HeaderLine + "\n" + Unlines(ItemLines([])) == HeaderLine + "\n"
  {
    assert HeaderLine + "\n" + "" == HeaderLine + "\n";
  }

  lemma AnomalyStringOneLine(a: Anomaly)
    requires '\n' !in a.reason && '\n' !in a.raw
    ensures '\n' !in ItemLine(a)
  {
    LineNoFieldShape(a.lineNo);
    assert '\n' !in AfterLineNo(a);
  }

  lemma HeaderOneLine()
    ensures '\n' !in HeaderLine
  {
  }

  /** One text line per anomaly: when no reason or raw line holds a line
      feed, splitting the report under a one-line header (HeaderLine is one,
      by HeaderOneLine) on line feeds gives back the header, the anomalies'
      own lines in order, and the empty piece after the last line feed. */
  lemma ReportLines(header: string, anomalies: seq<Anomaly>)
    requires '\n' !in header
    requires forall k :: 0 <= k < |anomalies| ==> '\n' !in anomalies[k].reason && '\n' !in anomalies[k].raw
    ensures SplitLines(header + "\n" + Unlines(ItemLines(anomalies))) == [header] + ItemLines(anomalies) + [""]
  {
    var ls := ItemLines(anomalies);
    ItemLinesOneLine(anomalies);
    SplitLinesCons(header, Unlines(ls));
    SplitUnlines(ls);
  }

  lemma ItemLinesOneLine(anomalies: seq<Anomaly>)
    requires forall k :: 0 <= k < |anomalies| ==> '\n' !in anomalies[k].reason && '\n' !in anomalies[k].raw
    ensures forall k :: 0 <= k < |ItemLines(anomalies)| ==> '\n' !in ItemLines(anomalies)[k]
  {
    ItemLinesLength(anomalies);
    forall k | 0 <= k < |anomalies| ensures '\n' !in ItemLines(anomalies)[k] {
      ItemLinesAt(anomalies, k);
      AnomalyStringOneLine(anomalies[k]);
    }
  }

  /** The report of anomalies_test.go for an unknown line at line 42, piece
      by piece: the header, then the anomaly's line with the number
      right-aligned in four characters. */
  lemma UnknownLineExample()
    ensures var a := Anomaly(42, "Unknown line type", "invalid line");
            HeaderLine + "\n" + Unlines(ItemLines([a])) ==
            "Syntax errors found in the input:" + "\n" +
            "  Line   42" + ", " + "Unknown line type" + ": \"" + "invalid line" + "\"" + "\n"
  {
    var a := Anomaly(42, "Unknown line type", "invalid line");
    ReportOfOne(HeaderLine, a);
    UnknownLineItem();
    var x := HeaderLine + "\n";
    var item := "  Line   42" + ", " + "Unknown line type" + ": \"" + "invalid line" + "\"";
    assert x + item + "\n" ==
           x + "  Line   42" + ", " + "Unknown line type" + ": \"" + "invalid line" + "\"" + "\n";
  }

  /** The report of a single anomaly is the header and that anomaly's line. */
  lemma {:induction false} ReportOfOne(header: string, a: Anomaly)
    ensures header + "\n" + Unlines(ItemLines([a])) == header + "\n" + ItemLine(a) + "\n"
  {
    assert ItemLines([a]) == [ItemLine(a)] by {
      assert [a][..0] == [];
    }
    assert Unlines([ItemLine(a)]) == ItemLine(a) + "\n" + "";
  }

  /** The test's anomaly line, without its line feed. */
  lemma UnknownLineItem()
    ensures ItemLine(Anomaly(42, "Unknown line type", "invalid line")) ==
            "  Line   42" + ", " + "Unknown line type" + ": \"" + "invalid line" + "\""
  {
    LineNoField42();
    assert "  " + ("Line " + "  42") == "  Line   42";
  }

  lemma LineNoField42()
    ensures LineNoField(42) == "  42"
  {
    assert Decimal(42) == "42" by {
      assert Decimal(4) == "4";
    }
    assert Spaces(2) == "  ";
  }
}
