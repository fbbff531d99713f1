/**
 * The fixed-width team table of `Teams.PrettyPrint`. A line is a sequence of
 * segments: plain text, which the terminal shows, and rich-text markup (the
 * colour tags around a team name), which it does not. The displayed length of
 * a line counts plain text only.
 */
module TeamTable {
  import opened Wrappers
  import opened Text
  import Selection

  datatype Segment = Plain(text: string) | Markup(text: string)

  type Line = seq<Segment>

  /** The characters the line is made of. */
  function Rendered(line: Line): string {
    if line == [] then "" else line[0].text + Rendered(line[1..])
  }

  /** How many characters the terminal shows: markup takes no room. */
  function Displayed(line: Line): nat {
    if line == [] then 0
    else (if line[0].Plain? then |line[0].text| else 0) + Displayed(line[1..])
  }

  predicate NoMarkup(line: Line) {
    forall i :: 0 <= i < |line| ==> line[i].Plain?
  }

  lemma {:induction false} DisplayedAppend(a: Line, b: Line)
    ensures Displayed(a + b) == Displayed(a) + Displayed(b)
    ensures NoMarkup(a) && NoMarkup(b) ==> NoMarkup(a + b)
  {
    if a == [] {
      assert a + b == b;
    } else {
      assert (a + b)[1..] == a[1..] + b;
      DisplayedAppend(a[1..], b);
    }
  }

  /** Without markup, what is shown is exactly what is written. */
  lemma {:induction false} PlainLineLength(line: Line)
    requires NoMarkup(line)
    ensures |Rendered(line)| == Displayed(line)
  {
    if line != [] {
      PlainLineLength(line[1..]);
    }
  }

  /** What the table shows about one team. `colorTag` is the team colour as six hex digits. */
  datatype Entry = Entry(name: string, colorTag: string, memberCount: nat, roundScore: int, totalScore: int, isLocal: bool)

  /** The member-count suffix " (n)", present in the newest snapshot only. */
  function Suffix(e: Entry, withCounts: bool): string {
    if withCounts then " (" + NatString(e.memberCount) + ")" else ""
  }

  /**
   * The name as the source measures it: the raw name's `Length`, which for
   * the `FixedString128Bytes` it is kept in counts UTF-8 bytes, then the
   * suffix and two for the "> " marker.
   */
  function NameLength(e: Entry, withCounts: bool): nat {
    Utf8Length(e.name) + |Suffix(e, withCounts)| + (if e.isLocal then 2 else 0)
  }

  /** How many characters fewer the terminal shows of a name than its byte count says. */
  function Shortfall(e: Entry): nat {
    Utf8Length(e.name) - |e.name|
  }

  /** A name falls short exactly when it holds a character outside ASCII. */
  lemma ShortfallOnlyBeyondAscii(e: Entry)
    ensures Shortfall(e) == 0 <==> IsAscii(e.name)
  {
    Utf8LengthExact(e.name);
  }

  /** The name cell's content: the local team's "> " marker, the (possibly coloured) name, the suffix. */
  function NameSegments(e: Entry, color: bool, withCounts: bool): Line {
    var marker := if e.isLocal then [Plain("> ")] else [];
    var name := if color then [Markup("<color=#" + e.colorTag + ">"), Plain(e.name), Markup("</color>")] else [Plain(e.name)];
    marker + name + [Plain(Suffix(e, withCounts))]
  }

  /** The name cell shows the length the source computes for it less the name's shortfall, markup aside. */
  lemma NameSegmentsLength(e: Entry, color: bool, withCounts: bool)
    ensures Displayed(NameSegments(e, color, withCounts)) + Shortfall(e) == NameLength(e, withCounts)
    ensures !color ==> NoMarkup(NameSegments(e, color, withCounts))
  {
    var marker := if e.isLocal then [Plain("> ")] else [];
    var name := if color then [Markup("<color=#" + e.colorTag + ">"), Plain(e.name), Markup("</color>")] else [Plain(e.name)];
    DisplayedAppend(marker, name);
    DisplayedAppend(marker + name, [Plain(Suffix(e, withCounts))]);
    assert Displayed([Plain(Suffix(e, withCounts))]) == |Suffix(e, withCounts)|;
    assert Displayed([Markup("</color>")]) == 0;
    assert Displayed([Plain(e.name), Markup("</color>")]) == |e.name|;
    assert Displayed(name) == |e.name|;
  }

  datatype Widths = Widths(name: int, round: int, total: int)

  function NameLengths(entries: seq<Entry>, withCounts: bool): (r: seq<int>)
    ensures |r| == |entries| && forall i :: 0 <= i < |entries| ==> r[i] == NameLength(entries[i], withCounts)
  {
    seq(|entries|, i requires 0 <= i < |entries| => NameLength(entries[i], withCounts))
  }

  function RoundLengths(entries: seq<Entry>): (r: seq<int>)
    ensures |r| == |entries| && forall i :: 0 <= i < |entries| ==> r[i] == |IntString(entries[i].roundScore)|
  {
    seq(|entries|, i requires 0 <= i < |entries| => |IntString(entries[i].roundScore)|)
  }

  function TotalLengths(entries: seq<Entry>): (r: seq<int>)
    ensures |r| == |entries| && forall i :: 0 <= i < |entries| ==> r[i] == |IntString(entries[i].totalScore)|
  {
    seq(|entries|, i requires 0 <= i < |entries| => |IntString(entries[i].totalScore)|)
  }

  function Max(a: int, b: int): int {
    if a >= b then a else b
  }

  /** The column widths before any spare room is shared out: at least 4, 12 and 12, and wide enough for every cell. */
  function NaturalWidths(entries: seq<Entry>, withCounts: bool): Widths
    requires |entries| > 0
  {
    Widths(
      Max(4, Selection.MaxOf(NameLengths(entries, withCounts))),
      Max(12, Selection.MaxOf(RoundLengths(entries))),
      Max(12, Selection.MaxOf(TotalLengths(entries))))
  }

  /** The room left over in a table `width` wide: four separators and three cell paddings take 7. */
  function AvailableSpace(entries: seq<Entry>, width: int, withCounts: bool): int
    requires |entries| > 0
  {
    var w := NaturalWidths(entries, withCounts);
    width - 7 - w.name - w.round - w.total
  }

  /** Every cell fits its column. */
  predicate Fits(entries: seq<Entry>, w: Widths, withCounts: bool) {
    && 4 <= w.name && 12 <= w.round && 12 <= w.total
    && forall i :: 0 <= i < |entries| ==>
         && NameLength(entries[i], withCounts) <= w.name
         && |IntString(entries[i].roundScore)| <= w.round
         && |IntString(entries[i].totalScore)| <= w.total
  }

  /**
   * How the columns share a table `width` wide: with no room to spare they
   * keep their natural widths; otherwise they fill the width exactly and the
   * spare room is split as evenly as it goes, the round column getting the
   * least and the name column the most, never more than one apart.
   */
  predicate Distributed(entries: seq<Entry>, w: Widths, width: int, withCounts: bool)
    requires |entries| > 0
  {
    var n := NaturalWidths(entries, withCounts);
    && (AvailableSpace(entries, width, withCounts) < 0 ==> w == n)
    && (AvailableSpace(entries, width, withCounts) >= 0 ==>
          && w.name + w.round + w.total == width - 7
          && n.round <= w.round && w.round - n.round <= w.total - n.total <= w.name - n.name <= w.round - n.round + 1)
  }

  /** The even split determines the widths: they are the source's thirds and halves of the spare room. */
  lemma DistributedShares(entries: seq<Entry>, w: Widths, width: int, withCounts: bool)
    requires |entries| > 0 && Distributed(entries, w, width, withCounts)
    requires AvailableSpace(entries, width, withCounts) >= 0
    ensures var n, a := NaturalWidths(entries, withCounts), AvailableSpace(entries, width, withCounts);
      && w.round == n.round + a / 3
      && w.total == n.total + (a - a / 3) / 2
      && w.name == n.name + (a - a / 3) - (a - a / 3) / 2
  {
  }

  /**
   * The column arithmetic: the natural widths, and when there is spare room
   * a third of it to the round column, half of the rest to the total column
   * and the remainder to the name column.
   */
  method ColumnWidths(entries: seq<Entry>, width: int, withCounts: bool) returns (w: Widths)
    requires |entries| > 0
    ensures Fits(entries, w, withCounts)
    ensures Distributed(entries, w, width, withCounts)
  {
    var natural := NaturalWidths(entries, withCounts);
    var nameColWidth, roundScoreColWidth, totalScoreColWidth := natural.name, natural.round, natural.total;
    var availableSpace := width - 7 - nameColWidth - roundScoreColWidth - totalScoreColWidth;
    if availableSpace >= 0 {
      roundScoreColWidth := roundScoreColWidth + availableSpace / 3;
      availableSpace := availableSpace - availableSpace / 3;
      totalScoreColWidth := totalScoreColWidth + availableSpace / 2;
      availableSpace := availableSpace - availableSpace / 2;
      nameColWidth := nameColWidth + availableSpace;
    }
    w := Widths(nameColWidth, roundScoreColWidth, totalScoreColWidth);
  }

  /** `CreateLine(c)`: "* ", `width - 4` copies of `c`, " *". */
  function RuleLine(c: char, width: int): Line
    requires width >= 4
  {
    [Plain("* " + Repeat(c, width - 4) + " *")]
  }

  lemma RuleLineLength(c: char, width: int)
    requires width >= 4
    ensures NoMarkup(RuleLine(c, width)) && Displayed(RuleLine(c, width)) == width
  {
    var text := "* " + Repeat(c, width - 4) + " *";
    assert Displayed([Plain(text)]) == |text|;
  }

  /**
   * One column of `CreateRow`: "| ", the content, then as many spaces as the
   * column width exceeds the content's `measured` length.
   */
  function Cell(content: Line, measured: nat, width: int): Line
    requires measured <= width
  {
    [Plain("| ")] + content + [Plain(Repeat(' ', width - measured))]
  }

  lemma CellLength(content: Line, measured: nat, width: int)
    requires measured <= width
    ensures Displayed(Cell(content, measured, width)) == width + 2 + Displayed(content) - measured
    ensures NoMarkup(content) ==> NoMarkup(Cell(content, measured, width))
  {
    var pad := [Plain(Repeat(' ', width - measured))];
    DisplayedAppend([Plain("| ")], content);
    DisplayedAppend([Plain("| ")] + content, pad);
    assert Displayed(pad) == width - measured;
    assert Displayed([Plain("| ")]) == 2;
  }

  function Text1(s: string): Line {
    [Plain(s)]
  }

  lemma Text1Length(s: string)
    ensures Displayed(Text1(s)) == |s| && NoMarkup(Text1(s))
  {
    assert Displayed([Plain(s)]) == |s|;
  }

  /**
   * `CreateRow` with three columns, closed by "|". The name column is padded
   * by the `measured` length it is given; the two text columns by their own
   * length (their text is ASCII, so characters and UTF-16 units agree).
   */
  function Row(name: Line, measured: nat, round: string, total: string, w: Widths): Line
    requires measured <= w.name && |round| <= w.round && |total| <= w.total
  {
    Cell(name, measured, w.name) + Cell(Text1(round), |round|, w.round) + Cell(Text1(total), |total|, w.total) + [Plain("|")]
  }

  lemma RowLength(name: Line, measured: nat, round: string, total: string, w: Widths)
    requires measured <= w.name && |round| <= w.round && |total| <= w.total
    ensures Displayed(Row(name, measured, round, total, w)) == w.name + w.round + w.total + 7 + Displayed(name) - measured
    ensures NoMarkup(name) ==> NoMarkup(Row(name, measured, round, total, w))
  {
    var ca, cb, cc := Cell(name, measured, w.name), Cell(Text1(round), |round|, w.round), Cell(Text1(total), |total|, w.total);
    Text1Length(round);
    Text1Length(total);
    CellLength(name, measured, w.name);
    CellLength(Text1(round), |round|, w.round);
    CellLength(Text1(total), |total|, w.total);
    DisplayedAppend(ca, cb);
    DisplayedAppend(ca + cb, cc);
    DisplayedAppend(ca + cb + cc, [Plain("|")]);
    assert Displayed([Plain("|")]) == 1;
  }

  function HeaderRow(w: Widths): Line
    requires 4 <= w.name && 12 <= w.round && 12 <= w.total
  {
    Row(Text1("Team"), |"Team"|, "Round Score", "Total Score", w)
  }

  function TeamRow(e: Entry, w: Widths, color: bool, withCounts: bool): Line
    requires NameLength(e, withCounts) <= w.name
    requires |IntString(e.roundScore)| <= w.round && |IntString(e.totalScore)| <= w.total
  {
    Row(NameSegments(e, color, withCounts), NameLength(e, withCounts), IntString(e.roundScore), IntString(e.totalScore), w)
  }

  lemma HeaderRowLength(w: Widths)
    requires 4 <= w.name && 12 <= w.round && 12 <= w.total
    ensures Displayed(HeaderRow(w)) == w.name + w.round + w.total + 7 && NoMarkup(HeaderRow(w))
  {
    Text1Length("Team");
    RowLength(Text1("Team"), |"Team"|, "Round Score", "Total Score", w);
  }

  /** A team row is as wide as the three columns plus 7, less its name's shortfall; without colour it holds no markup. */
  lemma RowsLength(entries: seq<Entry>, w: Widths, color: bool, withCounts: bool, i: nat)
    requires Fits(entries, w, withCounts) && i < |entries|
    ensures Displayed(TeamRow(entries[i], w, color, withCounts)) + Shortfall(entries[i]) == w.name + w.round + w.total + 7
    ensures !color ==> NoMarkup(TeamRow(entries[i], w, color, withCounts))
  {
    var e := entries[i];
    NameSegmentsLength(e, color, withCounts);
    RowLength(NameSegments(e, color, withCounts), NameLength(e, withCounts), IntString(e.roundScore), IntString(e.totalScore), w);
  }

  /** The team rows of a table, one per entry in order. */
  function TeamRows(entries: seq<Entry>, w: Widths, color: bool, withCounts: bool): (rows: seq<Line>)
    requires Fits(entries, w, withCounts)
    ensures |rows| == |entries|
  {
    seq(|entries|, k requires 0 <= k < |entries| => TeamRow(entries[k], w, color, withCounts))
  }

  predicate IsTable(lines: seq<Line>, entries: seq<Entry>, w: Widths, width: int, color: bool, withCounts: bool)
    requires width >= 4 && Fits(entries, w, withCounts)
  {
    lines == [RuleLine('=', width), HeaderRow(w), RuleLine('-', width)] + TeamRows(entries, w, color, withCounts) + [RuleLine('=', width)]
  }

  /** A property of the three leading lines, the trailing line and every row holds of every line of the framed sequence. */
  lemma FramedAll<T>(lines: seq<T>, top: T, head: T, sep: T, rows: seq<T>, P: T -> bool)
    requires lines == [top, head, sep] + rows + [top]
    requires P(top) && P(head) && P(sep) && forall i :: 0 <= i < |rows| ==> P(rows[i])
    ensures forall k :: 0 <= k < |lines| ==> P(lines[k])
  {
    forall k | 0 <= k < |lines|
      ensures P(lines[k])
    {
      if 3 <= k < |lines| - 1 {
        assert lines[k] == rows[k - 3];
      }
    }
  }

  /**
   * The widths the lines of a table show: the rules and the header exactly
   * `width`, and each team row `width` less its name's shortfall.
   */
  predicate ShowsWidth(lines: seq<Line>, entries: seq<Entry>, width: int) {
    && |lines| == |entries| + 4
    && Displayed(lines[0]) == width && Displayed(lines[1]) == width && Displayed(lines[2]) == width
    && Displayed(lines[|lines| - 1]) == width
    && forall k :: 0 <= k < |entries| ==> Displayed(lines[k + 3]) + Shortfall(entries[k]) == width
  }

  /** A framed sequence of lines shows the table's widths when its rules, header and rows do. */
  lemma FramedWidths(lines: seq<Line>, top: Line, head: Line, sep: Line, rows: seq<Line>, entries: seq<Entry>, width: int)
    requires lines == [top, head, sep] + rows + [top] && |rows| == |entries|
    requires Displayed(top) == width && Displayed(head) == width && Displayed(sep) == width
    requires forall i :: 0 <= i < |rows| ==> Displayed(rows[i]) + Shortfall(entries[i]) == width
    ensures ShowsWidth(lines, entries, width)
  {
    forall k | 0 <= k < |entries|
      ensures Displayed(lines[k + 3]) + Shortfall(entries[k]) == width
    {
      assert lines[k + 3] == rows[k];
    }
  }

  /** The widths of a table whose columns fill the width; without colour there is no markup. */
  lemma TableLinesWidth(lines: seq<Line>, entries: seq<Entry>, w: Widths, width: int, color: bool, withCounts: bool)
    requires width >= 4 && Fits(entries, w, withCounts)
    requires IsTable(lines, entries, w, width, color, withCounts)
    ensures w.name + w.round + w.total == width - 7 ==> ShowsWidth(lines, entries, width)
    ensures !color ==> forall k :: 0 <= k < |lines| ==> NoMarkup(lines[k])
  {
    var rows := TeamRows(entries, w, color, withCounts);
    var top, head, sep := RuleLine('=', width), HeaderRow(w), RuleLine('-', width);
    RuleLineLength('=', width);
    RuleLineLength('-', width);
    HeaderRowLength(w);
    forall i | 0 <= i < |rows|
      ensures Displayed(rows[i]) + Shortfall(entries[i]) == w.name + w.round + w.total + 7
      ensures !color ==> NoMarkup(rows[i])
    {
      RowsLength(entries, w, color, withCounts, i);
    }
    if w.name + w.round + w.total == width - 7 {
      FramedWidths(lines, top, head, sep, rows, entries, width);
    }
    if !color {
      FramedAll(lines, top, head, sep, rows, NoMarkup);
    }
  }

  /** When every team name is ASCII, every line of the table shows exactly `width` characters. */
  lemma AsciiTableWidth(lines: seq<Line>, entries: seq<Entry>, width: int)
    requires ShowsWidth(lines, entries, width)
    requires forall k :: 0 <= k < |entries| ==> IsAscii(entries[k].name)
    ensures forall k :: 0 <= k < |lines| ==> Displayed(lines[k]) == width
  {
    forall k | 0 <= k < |lines|
      ensures Displayed(lines[k]) == width
    {
      if 3 <= k < |lines| - 1 {
        ShortfallOnlyBeyondAscii(entries[k - 3]);
      }
    }
  }

  /** A row for a name with an accented letter ("\U{C9}quipe", seven bytes, six characters) is one character short. */
  lemma AccentedNameRowShort(lines: seq<Line>, entries: seq<Entry>, width: int, k: nat)
    requires ShowsWidth(lines, entries, width)
    requires k < |entries| && entries[k].name == "\U{C9}quipe"
    ensures Displayed(lines[k + 3]) == width - 1
  {
    var name := "\U{C9}quipe";
    assert name[..0] == [] && name[..1][..0] == name[..0];
    assert name[..2][..1] == name[..1] && name[..3][..2] == name[..2] && name[..4][..3] == name[..3];
    assert name[..5][..4] == name[..4] && name[..6][..5] == name[..5] && name[..6] == name;
    assert Utf8Length(name[..1]) == 2;
    assert Utf8Length(name[..2]) == 3;
    assert Utf8Length(name[..3]) == 4;
    assert Utf8Length(name[..4]) == 5;
    assert Utf8Length(name[..5]) == 6;
    assert Utf8Length(name) == 7;
  }

  /**
   * `PrettyPrint(width, color)`: a rule, the header, a thin rule, one row per
   * team in registration order, a closing rule. It throws (`None`) when there
   * are no teams (`Max` of nothing) or the width is below 4.
   */
  method PrettyPrint(entries: seq<Entry>, width: int, color: bool, withCounts: bool) returns (r: Option<seq<Line>>, w: Widths)
    ensures r.None? <==> |entries| == 0 || width < 4
    ensures r.Some? ==> width >= 4 && Fits(entries, w, withCounts) && IsTable(r.value, entries, w, width, color, withCounts)
    ensures r.Some? ==> Distributed(entries, w, width, withCounts)
    ensures r.Some? ==> |r.value| == |entries| + 4
    ensures r.Some? && AvailableSpace(entries, width, withCounts) >= 0 ==> ShowsWidth(r.value, entries, width)
    ensures r.Some? && !color ==> forall k :: 0 <= k < |r.value| ==> NoMarkup(r.value[k])
  {
    if |entries| == 0 || width < 4 {
      return None, Widths(0, 0, 0);
    }
    w := ColumnWidths(entries, width, withCounts);
    var lines := BuildLines(entries, w, width, color, withCounts);
    TableLinesWidth(lines, entries, w, width, color, withCounts);
    r := Some(lines);
  }

  /** The `yield return` sequence of `PrettyPrint`, for given column widths. */
  method BuildLines(entries: seq<Entry>, w: Widths, width: int, color: bool, withCounts: bool) returns (lines: seq<Line>)
    requires width >= 4 && Fits(entries, w, withCounts)
    ensures IsTable(lines, entries, w, width, color, withCounts)
  {
    lines := [RuleLine('=', width), HeaderRow(w), RuleLine('-', width)];
    ghost var rows := TeamRows(entries, w, color, withCounts);
    var i := 0;
    while i < |entries|
      invariant 0 <= i <= |entries|
      invariant lines == [RuleLine('=', width), HeaderRow(w), RuleLine('-', width)] + rows[..i]
    {
      assert rows[..i + 1] == rows[..i] + [TeamRow(entries[i], w, color, withCounts)];
      lines := lines + [TeamRow(entries[i], w, color, withCounts)];
      i := i + 1;
    }
    assert rows[..i] == rows;
    lines := lines + [RuleLine('=', width)];
  }

  /** Without colour, every line of a table with room to spare is exactly `width` characters. */
  lemma PlainTableWidth(lines: seq<Line>, width: int)
    requires forall k :: 0 <= k < |lines| ==> Displayed(lines[k]) == width && NoMarkup(lines[k])
    ensures forall k :: 0 <= k < |lines| ==> |Rendered(lines[k])| == width
  {
    forall k | 0 <= k < |lines| ensures |Rendered(lines[k])| == width {
      PlainLineLength(lines[k]);
    }
  }
}
