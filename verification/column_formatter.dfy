/** `ColumnFormatter`: lays out column titles and column values as console
    text lines. Without entries it renders one line per title (and caches
    them); with entries it renders a table: a header line, a separator line
    as wide as the header, and one line per row. */
module ColumnFormatter {

  import opened Wrappers
  import opened Text

  /** A column of values (`ColumnEntry`, not part of this model): the width
      the column's values need, and the formatted value of each row. */
  datatype ColumnEntry = ColumnEntry(columnMinLength: int, formattedEntries: seq<string>)

  /** The formatter's fixed settings; `ColumnFormatter.Builder` holds the
      same settings. */
  datatype Layout = Layout(
    leftSpacer: string,
    rightSpacer: string,
    columnLeftBracket: char,
    columnRightBracket: char,
    headerValuesSpacerChar: char,
    columnTitles: seq<string>)

  /** A formatter: its layout and the cache of the header-only rendering. */
  datatype Formatter = Formatter(layout: Layout, formattedColumnTitles: Option<seq<string>>) {
    /** What `Builder.build` guarantees of every formatter it creates. */
    predicate Valid() { |layout.columnTitles| >= 1 }
  }

  /** The builder's defaults. */
  const DefaultBuilder := Layout(" ", "", '|', ' ', '_', [])

  const NoTitleMessage := "At least one title must be given"

  /** `Builder.build`: refuses a formatter without column titles. */
  function Build(b: Layout): (r: Result<Formatter, Fault>)
    ensures r.Success? <==> |b.columnTitles| > 0
    ensures r.Failure? ==> r.error == VerifyFailed(NoTitleMessage)
    ensures r.Success? ==> r.value.Valid() && r.value.formattedColumnTitles.None? && r.value.layout == b
  {
    if |b.columnTitles| == 0 then Failure(VerifyFailed(NoTitleMessage))
    else Success(Formatter(b, None))
  }
  /** A builder left at its defaults has no titles, so building it fails. */
  lemma DefaultBuildFails()
    ensures Build(DefaultBuilder) == Failure(VerifyFailed(NoTitleMessage))
  {
  }


  /** One cell: brackets, spacers, the content and its padding. */
  function Cell(l: Layout, content: string, pad: string): string {
    [l.columnLeftBracket] + l.leftSpacer + content + pad + l.rightSpacer + [l.columnRightBracket]
  }

  /** Appending a cell's pieces one by one appends the cell. */
  lemma AppendCell(l: Layout, b: string, content: string, pad: string)
    ensures b + [l.columnLeftBracket] + l.leftSpacer + content + pad + l.rightSpacer + [l.columnRightBracket]
      == b + Cell(l, content, pad)
  {
  }

  function Max(a: int, b: int): int { if a < b then b else a }

  /** Spaces after a header title: up to the column's minimum length. */
  function TitlePad(title: string, minLength: int): string {
    if |title| > minLength then "" else Repeat(' ', minLength - |title|)
  }

  /** Spaces after a value: up to the title's length (`spaceCache`). */
  function ValuePad(title: string, minLength: int): string {
    if |title| > minLength then Repeat(' ', |title| - minLength) else ""
  }

  /** A header cell is as wide as the longer of its title and its column. */
  lemma HeaderCellWidth(l: Layout, title: string, minLength: int)
    ensures |Cell(l, title, TitlePad(title, minLength))|
      == 2 + |l.leftSpacer| + |l.rightSpacer| + Max(|title|, minLength)
  {
  }

  /** A value cell is padded by however much its title exceeds the column's
      minimum length. */
  lemma ValueCellWidth(l: Layout, title: string, minLength: int, value: string)
    ensures |Cell(l, value, ValuePad(title, minLength))|
      == 2 + |l.leftSpacer| + |l.rightSpacer| + |value| + Max(0, |title| - minLength)
  {
  }

  /** The header-only rendering: one bracketed line per title. */
  function HeaderOnlyLines(l: Layout): (r: seq<string>)
    ensures |r| == |l.columnTitles|
    ensures forall j :: 0 <= j < |r| ==> r[j] == Cell(l, l.columnTitles[j], "")
  {
    seq(|l.columnTitles|, j requires 0 <= j < |l.columnTitles| => Cell(l, l.columnTitles[j], ""))
  }

  /** The cache holds nothing, or exactly the header-only rendering. */
  predicate CacheSound(f: Formatter) {
    f.formattedColumnTitles.None? || f.formattedColumnTitles == Some(HeaderOnlyLines(f.layout))
  }

  function RowCount(entries: seq<ColumnEntry>): nat
    requires |entries| > 0
  {
    |entries[0].formattedEntries|
  }

  /** When the table path does not run into an index fault: an entry for
      every title, at least one row (counted from the first entry), and a
      value for every row in every titled column. */
  predicate TableShape(l: Layout, entries: seq<ColumnEntry>) {
    && |entries| >= 1
    && |entries| >= |l.columnTitles|
    && RowCount(entries) >= 1
    && forall j :: 0 <= j < |l.columnTitles| ==> |entries[j].formattedEntries| >= RowCount(entries)
  }

  /** The first `k` header cells. */
  function HeaderPrefix(l: Layout, entries: seq<ColumnEntry>, k: nat): string
    requires k <= |l.columnTitles| <= |entries|
  {
    if k == 0 then ""
    else
      HeaderPrefix(l, entries, k - 1)
      + Cell(l, l.columnTitles[k - 1], TitlePad(l.columnTitles[k - 1], entries[k - 1].columnMinLength))
  }

  /** The first `k` cells of row `row`. */
  function RowPrefix(l: Layout, entries: seq<ColumnEntry>, row: nat, k: nat): string
    requires TableShape(l, entries) && row < RowCount(entries) && k <= |l.columnTitles|
  {
    if k == 0 then ""
    else
      RowPrefix(l, entries, row, k - 1)
      + Cell(l, entries[k - 1].formattedEntries[row],
             ValuePad(l.columnTitles[k - 1], entries[k - 1].columnMinLength))
  }

  /** The first `n` row lines. */
  function Rows(l: Layout, entries: seq<ColumnEntry>, n: nat): (r: seq<string>)
    requires TableShape(l, entries) && n <= RowCount(entries)
    ensures |r| == n
  {
    if n == 0 then [] else Rows(l, entries, n - 1) + [RowPrefix(l, entries, n - 1, |l.columnTitles|)]
  }

  /** The table: header, separator of the same width, then the rows. */
  function TableLines(l: Layout, entries: seq<ColumnEntry>): seq<string>
    requires TableShape(l, entries)
  {
    var header := HeaderPrefix(l, entries, |l.columnTitles|);
    [header, Repeat(l.headerValuesSpacerChar, |header|)] + Rows(l, entries, RowCount(entries))
  }

  /** What `formatLines` returns, and the formatter afterwards (whose cache
      may have been filled). */
  datatype Formatted = Formatted(formatter: Formatter, lines: seq<string>)

  /** `formatLines`. Without entries: the cached header-only lines, filling
      the cache on first use. With entries: the table, or an index fault
      when the entries do not have the table's shape. */
  function FormatLines(f: Formatter, entries: seq<ColumnEntry>): (r: Result<Formatted, Fault>)
    requires f.Valid()
    ensures r.Failure? <==> |entries| > 0 && !TableShape(f.layout, entries)
    ensures r.Failure? ==> r.error == IndexOutOfBounds
    ensures r.Success? ==> r.value.formatter.layout == f.layout
    ensures r.Success? && |entries| == 0 && CacheSound(f) ==>
      r.value.lines == HeaderOnlyLines(f.layout)
      && r.value.formatter.formattedColumnTitles == Some(HeaderOnlyLines(f.layout))
    ensures r.Success? && |entries| > 0 ==>
      |r.value.lines| == 2 + RowCount(entries)
      && |r.value.lines[1]| == |r.value.lines[0]|
      && (forall i :: 0 <= i < |r.value.lines[1]| ==> r.value.lines[1][i] == f.layout.headerValuesSpacerChar)
  {
    if |entries| == 0 then
      var lines :=
        if f.formattedColumnTitles.Some? then f.formattedColumnTitles.value else HeaderOnlyLines(f.layout);
      Success(Formatted(f.(formattedColumnTitles := Some(lines)), lines))
    else if TableShape(f.layout, entries) then Success(Formatted(f, TableLines(f.layout, entries)))
    else Failure(IndexOutOfBounds)
  }

  /** The header-only result is cached: asking again gives the same lines
      and leaves the formatter as the first call left it. */
  lemma HeaderCacheStable(f: Formatter)
    requires f.Valid() && CacheSound(f)
    ensures var first := FormatLines(f, []);
      first.Success? && CacheSound(first.value.formatter)
      && FormatLines(first.value.formatter, []) == first
  {
  }

  /** A value as long as its column's minimum makes a cell as wide as the
      header cell above it. */
  lemma CellWidthsAgree(l: Layout, title: string, min: int, value: string)
    requires |value| == min
    ensures |Cell(l, value, ValuePad(title, min))| == |Cell(l, title, TitlePad(title, min))|
  {
    HeaderCellWidth(l, title, min);
    ValueCellWidth(l, title, min, value);
  }

  /** The width of a row prefix grows by the width of each cell. */
  lemma RowPrefixWidth(l: Layout, entries: seq<ColumnEntry>, row: nat, k: nat)
    requires TableShape(l, entries) && row < RowCount(entries) && 0 < k <= |l.columnTitles|
    ensures |RowPrefix(l, entries, row, k)| == |RowPrefix(l, entries, row, k - 1)|
      + |Cell(l, entries[k - 1].formattedEntries[row], ValuePad(l.columnTitles[k - 1], entries[k - 1].columnMinLength))|
  {
  }

  /** The width of a header prefix grows by the width of each cell. */
  lemma HeaderPrefixWidth(l: Layout, entries: seq<ColumnEntry>, k: nat)
    requires 0 < k <= |l.columnTitles| <= |entries|
    ensures |HeaderPrefix(l, entries, k)| == |HeaderPrefix(l, entries, k - 1)|
      + |Cell(l, l.columnTitles[k - 1], TitlePad(l.columnTitles[k - 1], entries[k - 1].columnMinLength))|
  {
  }

  lemma {:induction false} PrefixWidthsAgree(l: Layout, entries: seq<ColumnEntry>, row: nat, k: nat)
    requires TableShape(l, entries) && row < RowCount(entries) && k <= |l.columnTitles|
    requires forall j :: 0 <= j < |l.columnTitles| ==>
      |entries[j].formattedEntries[row]| == entries[j].columnMinLength
    ensures |RowPrefix(l, entries, row, k)| == |HeaderPrefix(l, entries, k)|
    decreases k
  {
    if k > 0 {
      PrefixWidthsAgree(l, entries, row, k - 1);
      PrefixWidthsStep(l, entries, row, k);
    }
  }

  /** One more cell on each side keeps the widths equal. */
  lemma PrefixWidthsStep(l: Layout, entries: seq<ColumnEntry>, row: nat, k: nat)
    requires TableShape(l, entries) && row < RowCount(entries) && 0 < k <= |l.columnTitles|
    requires |entries[k - 1].formattedEntries[row]| == entries[k - 1].columnMinLength
    requires |RowPrefix(l, entries, row, k - 1)| == |HeaderPrefix(l, entries, k - 1)|
    ensures |RowPrefix(l, entries, row, k)| == |HeaderPrefix(l, entries, k)|
  {
    CellWidthsAgree(l, l.columnTitles[k - 1], entries[k - 1].columnMinLength, entries[k - 1].formattedEntries[row]);
    RowPrefixWidth(l, entries, row, k);
    HeaderPrefixWidth(l, entries, k);
  }

  lemma {:induction false} RowsAsWideAsHeader(l: Layout, entries: seq<ColumnEntry>, n: nat)
    requires TableShape(l, entries) && n <= RowCount(entries)
    requires forall j, row :: 0 <= j < |l.columnTitles| && 0 <= row < RowCount(entries) ==>
      |entries[j].formattedEntries[row]| == entries[j].columnMinLength
    ensures forall row :: 0 <= row < n ==>
      |Rows(l, entries, n)[row]| == |HeaderPrefix(l, entries, |l.columnTitles|)|
    decreases n
  {
    if n > 0 {
      RowsAsWideAsHeader(l, entries, n - 1);
      PrefixWidthsAgree(l, entries, n - 1, |l.columnTitles|);
    }
  }

  /** When every value is exactly as long as its column's minimum length,
      every line of the table has the same width: the columns line up under
      their titles. */
  lemma TableAligned(l: Layout, entries: seq<ColumnEntry>)
    requires TableShape(l, entries)
    requires forall j, row :: 0 <= j < |l.columnTitles| && 0 <= row < RowCount(entries) ==>
      |entries[j].formattedEntries[row]| == entries[j].columnMinLength
    ensures forall i :: 0 <= i < |TableLines(l, entries)| ==>
      |TableLines(l, entries)[i]| == |TableLines(l, entries)[0]|
  {
    RowsAsWideAsHeader(l, entries, RowCount(entries));
  }

  /** `t * n` lies beyond `t` (or below `-t`) unless `n` is zero. */
  lemma {:induction false} MulAway(t: int, n: int)
    requires t >= 1
    ensures n >= 1 ==> t * n >= t
    ensures n <= -1 ==> t * n <= -t
    decreases if n < 0 then -n else n
  {
    if n > 1 {
      MulAway(t, n - 1);
      assert t * n == t * (n - 1) + t;
    } else if n < -1 {
      MulAway(t, n + 1);
      assert t * n == t * (n + 1) - t;
    }
  }

  /** Quotient and remainder by a positive number are unique. */
  lemma DivUnique(t: int, q1: int, m1: int, q2: int, m2: int)
    requires t >= 1 && 0 <= m1 < t && 0 <= m2 < t
    requires t * q1 + m1 == t * q2 + m2
    ensures q1 == q2 && m1 == m2
  {
    MulAway(t, q1 - q2);
    assert t * (q1 - q2) == m2 - m1;
  }

  /** `a * b` as repeated addition, so that the table loop's counters stay
      linear for the solver; `TimesIsProduct` ties it to multiplication. */
  function Times(a: nat, b: nat): nat {
    if b == 0 then 0 else Times(a, b - 1) + a
  }

  lemma {:induction false} TimesIsProduct(a: nat, b: nat)
    ensures Times(a, b) == a * b
    decreases b
  {
    if b > 0 {
      TimesIsProduct(a, b - 1);
    }
  }

  /** In the source's flattened loop the cell counter `i = t * d + k` is a
      multiple of the title count exactly when a row has just been filled. */
  lemma RowBoundary(t: nat, d: nat, k: int)
    requires t >= 1 && 1 <= k <= t
    ensures (Times(t, d) + k) % t == 0 <==> k == t
  {
    TimesIsProduct(t, d);
    var x := t * d + k;
    if k == t {
      DivUnique(t, x / t, x % t, d + 1, 0);
    } else {
      DivUnique(t, x / t, x % t, d, k);
    }
  }

  /** `t * a` and `t * b` compare like `a` and `b`. */
  lemma TimesCompare(t: nat, a: nat, b: nat)
    requires t >= 1
    ensures Times(t, a) < Times(t, b) <==> a < b
    ensures Times(t, a) == Times(t, b) <==> a == b
  {
    TimesIsProduct(t, a);
    TimesIsProduct(t, b);
    MulAway(t, b - a);
    assert t * b - t * a == t * (b - a);
  }

  /** A cell before the end of the last row comes before the end of the
      table. */
  lemma CellBound(t: nat, d: nat, k: nat, rows: nat)
    requires k < t && d < rows
    ensures Times(t, d) + k < Times(t, rows)
  {
    TimesCompare(t, d + 1, rows);
  }

  /** Appending the next header cell extends the header. */
  lemma HeaderStep(l: Layout, entries: seq<ColumnEntry>, k: nat, b: string, pad: string)
    requires k < |l.columnTitles| <= |entries|
    requires b == HeaderPrefix(l, entries, k)
    requires pad == TitlePad(l.columnTitles[k], entries[k].columnMinLength)
    ensures b + [l.columnLeftBracket] + l.leftSpacer + l.columnTitles[k] + pad + l.rightSpacer
      + [l.columnRightBracket] == HeaderPrefix(l, entries, k + 1)
  {
    AppendCell(l, b, l.columnTitles[k], pad);
  }

  /** The source's header loop: the header line, and for each titled
      column the padding its values will need. */
  method FormatHeader(l: Layout, entries: seq<ColumnEntry>) returns (header: string, spaceCache: seq<string>)
    requires |l.columnTitles| <= |entries|
    ensures header == HeaderPrefix(l, entries, |l.columnTitles|)
    ensures |spaceCache| == |entries|
    ensures forall j :: 0 <= j < |l.columnTitles| ==>
      spaceCache[j] == ValuePad(l.columnTitles[j], entries[j].columnMinLength)
  {
    spaceCache := seq(|entries|, _ => "");
    header := "";
    var i := 0;
    while i < |l.columnTitles|
      invariant 0 <= i <= |l.columnTitles|
      invariant |spaceCache| == |entries|
      invariant header == HeaderPrefix(l, entries, i)
      invariant forall j :: 0 <= j < i ==>
        spaceCache[j] == ValuePad(l.columnTitles[j], entries[j].columnMinLength)
    {
      var title := l.columnTitles[i];
      var ourSpaces;
      if |title| > entries[i].columnMinLength {
        ourSpaces := "";
        spaceCache := spaceCache[i := Repeat(' ', |title| - entries[i].columnMinLength)];
      } else {
        ourSpaces := Repeat(' ', entries[i].columnMinLength - |title|);
        spaceCache := spaceCache[i := ""];
      }
      assert spaceCache[i] == ValuePad(title, entries[i].columnMinLength);
      HeaderStep(l, entries, i, header, ourSpaces);
      header := header + [l.columnLeftBracket] + l.leftSpacer + title + ourSpaces
        + l.rightSpacer + [l.columnRightBracket];
      i := i + 1;
    }
  }

  /** Completing a row appends its line to the rows so far. */
  lemma RowsStep(l: Layout, entries: seq<ColumnEntry>, d: nat)
    requires TableShape(l, entries) && d < RowCount(entries)
    ensures Rows(l, entries, d + 1) == Rows(l, entries, d) + [RowPrefix(l, entries, d, |l.columnTitles|)]
  {
  }

  /** Appending the next cell of row `d` extends that row's prefix. */
  lemma PrefixStep(l: Layout, entries: seq<ColumnEntry>, d: nat, k: nat, b: string, pad: string)
    requires TableShape(l, entries) && d < RowCount(entries) && k < |l.columnTitles|
    requires b == RowPrefix(l, entries, d, k)
    requires pad == ValuePad(l.columnTitles[k], entries[k].columnMinLength)
    ensures d < |entries[k].formattedEntries|
    ensures b + [l.columnLeftBracket] + l.leftSpacer + entries[k].formattedEntries[d] + pad + l.rightSpacer
      + [l.columnRightBracket] == RowPrefix(l, entries, d, k + 1)
  {
    AppendCell(l, b, entries[k].formattedEntries[d], pad);
  }

  /** What the header loop hands to the cell loop: the header line and the
      padding of every titled column. */
  ghost predicate Prepared(l: Layout, entries: seq<ColumnEntry>, spaceCache: seq<string>, header: string)
  {
    && |l.columnTitles| >= 1 && TableShape(l, entries)
    && header == HeaderPrefix(l, entries, |l.columnTitles|)
    && |spaceCache| == |entries|
    && (forall j :: 0 <= j < |l.columnTitles| ==>
          spaceCache[j] == ValuePad(l.columnTitles[j], entries[j].columnMinLength))
  }

  /** The state of the source's cell loop before pass `i`: rows before
      `currentDepth` are written, `builder` holds the first `k` cells of the
      current row, and `i` counts the cells so far. */
  ghost predicate Scan(l: Layout, entries: seq<ColumnEntry>, spaceCache: seq<string>, header: string,
                       i: nat, currentDepth: nat, k: nat, builder: string, lines: seq<string>)
  {
    && Prepared(l, entries, spaceCache, header)
    && currentDepth < RowCount(entries) && k <= |l.columnTitles|
    && i == Times(|l.columnTitles|, currentDepth) + k
    && (k == 0 ==> i == 0)
    && i <= Times(|l.columnTitles|, RowCount(entries))
    && builder == RowPrefix(l, entries, currentDepth, k)
    && lines == [header, Repeat(l.headerValuesSpacerChar, |header|)] + Rows(l, entries, currentDepth)
  }

  /** The state of a pass once any finished row is flushed: cell `k` of row
      `currentDepth` is next, and it is not past the end of the table. */
  ghost predicate NextCell(l: Layout, entries: seq<ColumnEntry>, spaceCache: seq<string>, header: string,
                           i: nat, currentDepth: nat, k: nat, builder: string, lines: seq<string>)
  {
    && Prepared(l, entries, spaceCache, header)
    && currentDepth < RowCount(entries) && k < |l.columnTitles|
    && i == Times(|l.columnTitles|, currentDepth) + k
    && i < Times(|l.columnTitles|, RowCount(entries))
    && builder == RowPrefix(l, entries, currentDepth, k)
    && lines == [header, Repeat(l.headerValuesSpacerChar, |header|)] + Rows(l, entries, currentDepth)
  }

  /** Flushing the last row completes the table. */
  lemma FlushLast(l: Layout, entries: seq<ColumnEntry>, spaceCache: seq<string>, header: string,
                  i: nat, currentDepth: nat, builder: string, lines: seq<string>)
    requires Scan(l, entries, spaceCache, header, i, currentDepth, |l.columnTitles|, builder, lines)
    requires i == Times(|l.columnTitles|, RowCount(entries))
    ensures lines + [builder] == TableLines(l, entries)
  {
    var t := |l.columnTitles|;
    assert currentDepth + 1 == RowCount(entries) by {
      assert i == Times(t, currentDepth + 1);
      TimesCompare(t, currentDepth + 1, RowCount(entries));
    }
    RowsStep(l, entries, currentDepth);
    var top := [header, Repeat(l.headerValuesSpacerChar, |header|)];
    AppendLast(top, Rows(l, entries, currentDepth), builder);
  }

  lemma AppendLast<T>(front: seq<T>, middle: seq<T>, last: T)
    ensures front + middle + [last] == front + (middle + [last])
  {
  }

  /** Flushing a row that is not the last one starts the next row. */
  lemma FlushRow(l: Layout, entries: seq<ColumnEntry>, spaceCache: seq<string>, header: string,
                 i: nat, currentDepth: nat, builder: string, lines: seq<string>)
    requires Scan(l, entries, spaceCache, header, i, currentDepth, |l.columnTitles|, builder, lines)
    requires i != Times(|l.columnTitles|, RowCount(entries))
    ensures NextCell(l, entries, spaceCache, header, i, currentDepth + 1, 0, "", lines + [builder])
  {
    var t := |l.columnTitles|;
    assert i == Times(t, currentDepth + 1);
    TimesCompare(t, currentDepth + 1, RowCount(entries));
    RowsStep(l, entries, currentDepth);
  }

  /** Inside a row, the next cell is within the table. */
  lemma WithinRow(l: Layout, entries: seq<ColumnEntry>, spaceCache: seq<string>, header: string,
                  i: nat, currentDepth: nat, k: nat, builder: string, lines: seq<string>)
    requires Scan(l, entries, spaceCache, header, i, currentDepth, k, builder, lines)
    requires k < |l.columnTitles|
    ensures NextCell(l, entries, spaceCache, header, i, currentDepth, k, builder, lines)
  {
    CellBound(|l.columnTitles|, currentDepth, k, RowCount(entries));
  }

  /** Appending the next cell moves the loop to pass `i + 1`. */
  lemma AppendNext(l: Layout, entries: seq<ColumnEntry>, spaceCache: seq<string>, header: string,
                   i: nat, currentDepth: nat, k: nat, builder: string, lines: seq<string>)
    requires NextCell(l, entries, spaceCache, header, i, currentDepth, k, builder, lines)
    ensures k < |spaceCache| && currentDepth < |entries[k].formattedEntries|
    ensures Scan(l, entries, spaceCache, header, i + 1, currentDepth, k + 1,
                 builder + [l.columnLeftBracket] + l.leftSpacer + entries[k].formattedEntries[currentDepth]
                 + spaceCache[k] + l.rightSpacer + [l.columnRightBracket], lines)
  {
    PrefixStep(l, entries, currentDepth, k, builder, spaceCache[k]);
  }

  /** One pass of the source's cell loop: when `i` is a positive multiple of
      the title count the finished row is flushed, and after the last row
      the loop stops; otherwise the next cell is appended to the row. */
  method CellStep(l: Layout, entries: seq<ColumnEntry>, spaceCache: seq<string>, header: string,
                  i: nat, currentDepth: nat, builder: string, lines: seq<string>, ghost k: nat)
    returns (done: bool, currentDepth': nat, builder': string, lines': seq<string>, ghost k': nat)
    requires Scan(l, entries, spaceCache, header, i, currentDepth, k, builder, lines)
    ensures done <==> i == Times(|l.columnTitles|, RowCount(entries))
    ensures done ==> lines' == TableLines(l, entries)
    ensures !done ==> Scan(l, entries, spaceCache, header, i + 1, currentDepth', k', builder', lines')
  {
    var titleCount := |l.columnTitles|;
    var repeatCount := Times(titleCount, RowCount(entries));
    done := false;
    if i != 0 {
      RowBoundary(titleCount, currentDepth, k);
    }
    if i != 0 && i % titleCount == 0 {
      if i == repeatCount {
        FlushLast(l, entries, spaceCache, header, i, currentDepth, builder, lines);
      } else {
        FlushRow(l, entries, spaceCache, header, i, currentDepth, builder, lines);
      }
      lines' := lines + [builder];
      builder' := "";
      currentDepth' := currentDepth + 1;
      k' := 0;
      if i == repeatCount {
        done := true;
        return;
      }
    } else {
      WithinRow(l, entries, spaceCache, header, i, currentDepth, k, builder, lines);
      currentDepth', builder', lines', k' := currentDepth, builder, lines, k;
    }
    var index := i - Times(titleCount, currentDepth');
    if index < 0 {
      index := i;
    }
    AppendNext(l, entries, spaceCache, header, i, currentDepth', index, builder', lines');
    builder' := builder' + [l.columnLeftBracket] + l.leftSpacer + entries[index].formattedEntries[currentDepth']
      + spaceCache[index] + l.rightSpacer + [l.columnRightBracket];
    k' := k' + 1;
  }

  /** The source's table algorithm: the header loop, then a single loop over
      `titles * rows` cells that flushes a line whenever a row is complete.
      It yields exactly the table defined by `TableLines`. */
  method FormatTable(l: Layout, entries: seq<ColumnEntry>) returns (lines: seq<string>)
    requires |l.columnTitles| >= 1 && TableShape(l, entries)
    ensures lines == TableLines(l, entries)
  {
    var header, spaceCache := FormatHeader(l, entries);
    lines := [header, Repeat(l.headerValuesSpacerChar, |header|)];
    var builder := "";
    var repeatCount := Times(|l.columnTitles|, RowCount(entries));
    var currentDepth := 0;
    ghost var k := 0;
    TimesCompare(|l.columnTitles|, 0, RowCount(entries));
    var i := 0;
    while i <= repeatCount
      invariant Scan(l, entries, spaceCache, header, i, currentDepth, k, builder, lines)
      decreases repeatCount - i
    {
      var done;
      done, currentDepth, builder, lines, k := CellStep(l, entries, spaceCache, header, i, currentDepth, builder, lines, k);
      if done {
        return;
      }
      i := i + 1;
    }
  }
}
