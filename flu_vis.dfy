/**
 * The snapshot reader `read_flu_data` (fluVis.py:5-22). The file is given as
 * its sequence of lines; a line that starts with `Day` closes the grid being
 * built, and every other line becomes one row, the integers it holds.
 * The conversion of each grid to a numpy array is the identity here.
 */
module FluVis {
  import opened Wrappers
  import opened Grids

  /** `line.startswith("Day")`. */
  predicate IsHeader(line: string)
    ensures IsHeader(line) <==> "Day" <= line
  {
    |line| >= 3 && line[..3] == "Day"
  }

  /** The ASCII characters `str.split()` treats as whitespace. */
  predicate IsSpace(c: char)
  {
    var k := c as int;
    k == 32 || 9 <= k <= 13 || 28 <= k <= 31
  }

  predicate IsDigit(c: char)
  {
    '0' <= c <= '9'
  }

  predicate AllDigits(s: string)
  {
    forall k :: 0 <= k < |s| ==> IsDigit(s[k])
  }

  predicate NoSpace(s: string)
  {
    forall k :: 0 <= k < |s| ==> !IsSpace(s[k])
  }

  // ---------------------------------------------------------------------
  // line.split() and int()

  /** `str.split()` with no argument, `word` being the part of a word already read. */
  function SplitFrom(s: string, word: string): seq<string>
  {
    if s == [] then
      (if word == [] then [] else [word])
    else if IsSpace(s[0]) then
      (if word == [] then [] else [word]) + SplitFrom(s[1..], [])
    else
      SplitFrom(s[1..], word + [s[0]])
  }

  /** Every word `split()` returns is non-empty and holds no whitespace. */
  lemma {:induction false} SplitWords(s: string, w: string)
    requires NoSpace(w)
    ensures forall k :: 0 <= k < |SplitFrom(s, w)| ==> SplitFrom(s, w)[k] != [] && NoSpace(SplitFrom(s, w)[k])
    decreases |s|
  {
    if s != [] {
      if IsSpace(s[0]) {
        SplitWords(s[1..], []);
      } else {
        SplitWords(s[1..], w + [s[0]]);
      }
    }
  }

  function Split(s: string): seq<string>
  {
    SplitFrom(s, [])
  }

  /** The value of a string of decimal digits. */
  function DigitsValue(s: string): nat
    requires AllDigits(s)
  {
    if s == [] then 0 else DigitsValue(s[..|s| - 1]) * 10 + (s[|s| - 1] as int - '0' as int)
  }

  /** `int(token)`: an optional sign, then one or more decimal digits; anything else
      is the `ValueError` the program would raise. */
  function ParseInt(tok: string): Option<int>
  {
    if |tok| > 0 && (tok[0] == '+' || tok[0] == '-') then
      var ds := tok[1..];
      if ds != [] && AllDigits(ds) then
        var v: int := DigitsValue(ds);
        Some(if tok[0] == '-' then -v else v)
      else
        None
    else if tok != [] && AllDigits(tok) then
      Some(DigitsValue(tok))
    else
      None
  }

  /** `list(map(int, tokens))`: the values in order, or the first token that is not an integer. */
  function ParseTokens(ts: seq<string>): Result<seq<int>, string>
  {
    if ts == [] then Ok([])
    else match ParseInt(ts[0])
      case None => Err(ts[0])
      case Some(v) =>
        match ParseTokens(ts[1..])
        case Err(bad) => Err(bad)
        case Ok(vs) => Ok([v] + vs)
  }

  function ParseRow(line: string): Result<seq<int>, string>
  {
    ParseTokens(Split(line))
  }

  /** What `int()` accepts: never an empty token or one holding whitespace; a negative
      value only with a leading `-`; a string of digits gives its decimal value. */
  lemma {:induction false} ParseIntAccepts(tok: string)
    ensures ParseInt(tok).Some? ==> tok != [] && NoSpace(tok)
    ensures ParseInt(tok).Some? && ParseInt(tok).value < 0 ==> tok[0] == '-'
    ensures tok != [] && AllDigits(tok) ==> ParseInt(tok) == Some(DigitsValue(tok))
  {
    if ParseInt(tok).Some? {
      forall k | 0 <= k < |tok|
        ensures !IsSpace(tok[k])
      {
        if k > 0 {
          assert tok[k] == tok[1..][k - 1];
        }
      }
    }
  }

  /** `list(map(int, ts))`: one value per token, each what `int()` gives that token,
      or a token `int()` rejects. */
  lemma {:induction false} ParseTokensValues(ts: seq<string>)
    ensures ParseTokens(ts).Ok? ==> |ParseTokens(ts).value| == |ts|
    ensures ParseTokens(ts).Ok? ==> forall k :: 0 <= k < |ts| ==> ParseInt(ts[k]) == Some(ParseTokens(ts).value[k])
    ensures ParseTokens(ts).Err? ==> ParseTokens(ts).error in ts && ParseInt(ParseTokens(ts).error).None?
  {
    if ts != [] {
      ParseTokensValues(ts[1..]);
      if ParseTokens(ts).Ok? {
        var vs := ParseTokens(ts).value;
        forall k | 0 <= k < |ts|
          ensures ParseInt(ts[k]) == Some(vs[k])
        {
          if k > 0 {
            assert ts[k] == ts[1..][k - 1];
          }
        }
      }
    }
  }

  /** A row line parses to one integer per word of `line.split()`, each the value
      `int()` gives that word, or fails on a word of the line that `int()` rejects. */
  lemma {:induction false} ParseRowValues(line: string)
    ensures ParseRow(line).Ok? ==> |ParseRow(line).value| == |Split(line)|
    ensures ParseRow(line).Ok? ==> forall k :: 0 <= k < |Split(line)| ==> ParseInt(Split(line)[k]) == Some(ParseRow(line).value[k])
    ensures ParseRow(line).Err? ==> ParseRow(line).error in Split(line) && ParseInt(ParseRow(line).error).None?
  {
    ParseTokensValues(Split(line));
  }

  // ---------------------------------------------------------------------
  // What each line is, and how the lines group into grids

  /** A line is either a day header or a row of values. */
  datatype Item = Header | Row(cells: seq<int>)

  /** The line (counted from 0) whose token `int()` rejects. */
  datatype ParseError = InvalidLiteral(line: nat, token: string)

  function ClassifyLine(line: string): Result<Item, string>
  {
    if IsHeader(line) then Ok(Header)
    else match ParseRow(line)
      case Err(bad) => Err(bad)
      case Ok(row) => Ok(Row(row))
  }

  /** Every line classified in order, or the first line that does not parse. */
  function Classify(lines: seq<string>): (r: Result<seq<Item>, ParseError>)
    ensures r.Ok? ==> |r.value| == |lines|
    ensures r.Err? ==> r.error.line < |lines| && !IsHeader(lines[r.error.line])
  {
    if lines == [] then Ok([])
    else match Classify(lines[..|lines| - 1])
      case Err(e) => Err(e)
      case Ok(items) =>
        match ClassifyLine(lines[|lines| - 1])
        case Err(bad) => Err(InvalidLiteral(|lines| - 1, bad))
        case Ok(item) => Ok(items + [item])
  }

  /** Once a prefix of the file fails to parse, the whole file fails with the same error. */
  lemma {:induction false} ClassifyErrorPersists(lines: seq<string>, k: nat)
    requires k <= |lines| && Classify(lines[..k]).Err?
    ensures Classify(lines) == Classify(lines[..k])
    decreases |lines|
  {
    if k < |lines| {
      var init := lines[..|lines| - 1];
      assert init[..k] == lines[..k];
      ClassifyErrorPersists(init, k);
    } else {
      assert lines[..k] == lines;
    }
  }

  /** The rows between headers: the pieces the headers cut the items into, empty
      pieces included (there is always one more piece than there are headers). */
  function Segments(items: seq<Item>): (segs: seq<Grid>)
    ensures |segs| >= 1
  {
    if items == [] then [[]]
    else
      var prev := Segments(items[..|items| - 1]);
      match items[|items| - 1]
      case Header => prev + [[]]
      case Row(cells) => prev[..|prev| - 1] + [prev[|prev| - 1] + [cells]]
  }

  /** The pieces that are not empty, in order. */
  function NonEmpty(segs: seq<Grid>): (gs: seq<Grid>)
    ensures forall k :: 0 <= k < |gs| ==> gs[k] != []
  {
    if segs == [] then []
    else NonEmpty(segs[..|segs| - 1]) + (if segs[|segs| - 1] == [] then [] else [segs[|segs| - 1]])
  }

  /** The grids of a file: the maximal runs of rows, in order. */
  function Runs(items: seq<Item>): seq<Grid>
  {
    NonEmpty(Segments(items))
  }

  /** What `read_flu_data` returns for a file, or the error it raises. */
  function ReadFluDataSpec(lines: seq<string>): (r: Result<seq<Grid>, ParseError>)
    ensures r.Ok? ==> forall k :: 0 <= k < |r.value| ==> r.value[k] != []
    ensures r.Err? ==> r.error.line < |lines| && !IsHeader(lines[r.error.line])
  {
    match Classify(lines)
    case Err(e) => Err(e)
    case Ok(items) => Ok(Runs(items))
  }

  lemma {:induction false} ClassifySnoc(lines: seq<string>, k: nat)
    requires k < |lines| && Classify(lines[..k]).Ok?
    ensures Classify(lines[..k + 1]) ==
      match ClassifyLine(lines[k])
      case Err(bad) => Err(InvalidLiteral(k, bad))
      case Ok(item) => Ok(Classify(lines[..k]).value + [item])
  {
    assert lines[..k + 1][..k] == lines[..k];
  }

  lemma {:induction false} SegmentsSnoc(items: seq<Item>, item: Item)
    ensures var segs := Segments(items);
      Segments(items + [item]) ==
        match item
        case Header => segs + [[]]
        case Row(cells) => segs[..|segs| - 1] + [segs[|segs| - 1] + [cells]]
  {
    assert (items + [item])[..|items|] == items;
  }

  // ---------------------------------------------------------------------
  // The reader itself (fluVis.py:5-22)

  /** The reader's state after the items `items`: `current` is the last segment and
      `data` the non-empty segments before it. */
  ghost predicate Reading(items: seq<Item>, current: Grid, data: seq<Grid>)
  {
    var segs := Segments(items);
    segs[|segs| - 1] == current && data == NonEmpty(segs[..|segs| - 1])
  }

  lemma {:induction false} HeaderClosesGrid(items: seq<Item>, current: Grid, data: seq<Grid>)
    requires Reading(items, current, data)
    ensures Reading(items + [Header], [], data + (if current == [] then [] else [current]))
  {
    var segs := Segments(items);
    SegmentsSnoc(items, Header);
    assert (segs + [[]])[..|segs|] == segs;
  }

  lemma {:induction false} RowExtendsGrid(items: seq<Item>, current: Grid, data: seq<Grid>, cells: seq<int>)
    requires Reading(items, current, data)
    ensures Reading(items + [Row(cells)], current + [cells], data)
  {
    var segs := Segments(items);
    SegmentsSnoc(items, Row(cells));
    var closed := segs[..|segs| - 1];
    assert (closed + [current + [cells]])[..|closed|] == closed;
  }

  lemma {:induction false} ReadingRuns(items: seq<Item>, current: Grid, data: seq<Grid>)
    requires Reading(items, current, data)
    ensures Runs(items) == data + (if current == [] then [] else [current])
  {
  }

  /** The loop of `read_flu_data`: `current` is the grid being built, `data` the
      grids already closed. */
  method ReadFluData(lines: seq<string>) returns (r: Result<seq<Grid>, ParseError>)
    ensures r == ReadFluDataSpec(lines)
  {
    var data: seq<Grid> := [];
    var current: Grid := [];
    ghost var items: seq<Item> := [];
    for k := 0 to |lines|
      invariant Classify(lines[..k]) == Ok(items)
      invariant Reading(items, current, data)
    {
      ClassifySnoc(lines, k);
      var line := lines[k];
      if IsHeader(line) {
        HeaderClosesGrid(items, current, data);
        items := items + [Header];
        if current != [] {
          data := data + [current];
          current := [];
        }
      } else {
        var row := ParseRow(line);
        if row.Err? {
          ClassifyErrorPersists(lines, k + 1);
          return Err(InvalidLiteral(k, row.error));
        }
        RowExtendsGrid(items, current, data, row.value);
        items := items + [Row(row.value)];
        current := current + [row.value];
      }
    }
    assert lines[..|lines|] == lines;
    ReadingRuns(items, current, data);
    if current != [] {
      data := data + [current];
    }
    assert Classify(lines) == Ok(items);
    assert data == Runs(items);
    return Ok(data);
  }
}

/**
 * What the reader promises about the grids it returns, and that it reads back
 * exactly what the simulator writes.
 */
module FluVisProperties {
  import opened Wrappers
  import opened Grids
  import opened FluVis
  import Report

  /** All rows of a list of grids, in order. */
  function Flatten(gs: seq<Grid>): seq<seq<int>>
  {
    if gs == [] then [] else Flatten(gs[..|gs| - 1]) + gs[|gs| - 1]
  }

  /** The rows the items carry, in order. */
  function RowsOf(items: seq<Item>): seq<seq<int>>
  {
    if items == [] then []
    else RowsOf(items[..|items| - 1]) + (if items[|items| - 1].Row? then [items[|items| - 1].cells] else [])
  }

  /** The lines that do not start with `Day`, in order. */
  function NonHeaderLines(lines: seq<string>): seq<string>
  {
    if lines == [] then []
    else NonHeaderLines(lines[..|lines| - 1]) + (if IsHeader(lines[|lines| - 1]) then [] else [lines[|lines| - 1]])
  }

  function RowItems(g: Grid): (items: seq<Item>)
    ensures |items| == |g|
  {
    seq(|g|, i requires 0 <= i < |g| => Row(g[i]))
  }

  // ---------------------------------------------------------------------
  // Splitting and classifying lines

  /** A file that parses is classified line by line: a header line gives a header and
      every other line gives one row, the integers it holds. A file that does not parse
      fails at the first line holding a token that is not an integer. */
  lemma {:induction false} ClassifyLines(lines: seq<string>)
    ensures Classify(lines).Ok? ==>
      var items := Classify(lines).value;
      |items| == |lines| && forall k :: 0 <= k < |lines| ==> ClassifyLine(lines[k]) == Ok(items[k])
    ensures Classify(lines).Err? ==>
      var k := Classify(lines).error.line;
      && k < |lines| && !IsHeader(lines[k])
      && ParseRow(lines[k]) == Err(Classify(lines).error.token)
      && Classify(lines[..k]).Ok?
  {
    if lines != [] {
      var init := lines[..|lines| - 1];
      ClassifyLines(init);
      if Classify(init).Err? {
        var k := Classify(init).error.line;
        assert init[..k] == lines[..k];
      } else if Classify(lines).Err? {
        assert lines[..|lines| - 1] == init;
      }
    }
  }

  lemma {:induction false} ClassifyAll(lines: seq<string>, items: seq<Item>)
    requires |lines| == |items|
    requires forall k :: 0 <= k < |lines| ==> ClassifyLine(lines[k]) == Ok(items[k])
    ensures Classify(lines) == Ok(items)
  {
    if lines != [] {
      ClassifyAll(lines[..|lines| - 1], items[..|items| - 1]);
      assert items == items[..|items| - 1] + [items[|items| - 1]];
    }
  }

  lemma {:induction false} ClassifyAppend(a: seq<string>, b: seq<string>)
    requires Classify(a).Ok? && Classify(b).Ok?
    ensures Classify(a + b) == Ok(Classify(a).value + Classify(b).value)
    decreases |b|
  {
    if b == [] {
      assert a + b == a;
      assert Classify(a).value + Classify(b).value == Classify(a).value;
    } else {
      var init := b[..|b| - 1];
      assert (a + b)[..|a + b| - 1] == a + init;
      ClassifyAppend(a, init);
      assert Classify(a).value + Classify(b).value ==
        (Classify(a).value + Classify(init).value) + [Classify(b).value[|Classify(b).value| - 1]];
    }
  }

  // ---------------------------------------------------------------------
  // Grouping

  lemma {:induction false} NonEmptyConcat(x: seq<Grid>, y: seq<Grid>)
    ensures NonEmpty(x + y) == NonEmpty(x) + NonEmpty(y)
    decreases |y|
  {
    if y == [] {
      assert x + y == x;
    } else {
      var init := y[..|y| - 1];
      assert (x + y)[..|x + y| - 1] == x + init;
      NonEmptyConcat(x, init);
    }
  }

  lemma {:induction false} SegmentsConcat(a: seq<Item>, b: seq<Item>)
    ensures Segments(a + [Header] + b) == Segments(a) + Segments(b)
    decreases |b|
  {
    if b == [] {
      assert a + [Header] + b == a + [Header];
      SegmentsSnoc(a, Header);
    } else {
      var init, x := b[..|b| - 1], b[|b| - 1];
      assert a + [Header] + b == (a + [Header] + init) + [x];
      assert b == init + [x];
      SegmentsConcat(a, init);
      SegmentsSnoc(a + [Header] + init, x);
      SegmentsSnoc(init, x);
      var sa, si := Segments(a), Segments(init);
      var prev := sa + si;
      match x
      case Header =>
        assert Segments(b) == si + [[]];
        assert prev + [[]] == sa + (si + [[]]);
      case Row(cells) =>
        assert Segments(b) == si[..|si| - 1] + [si[|si| - 1] + [cells]];
        ExtendLast(sa, si, cells);
    }
  }

  /** Adding a row to the last group of `sa + si` only touches the part from `si`. */
  lemma {:induction false} ExtendLast(sa: seq<Grid>, si: seq<Grid>, cells: seq<int>)
    requires |si| >= 1
    ensures var prev := sa + si;
      prev[..|prev| - 1] + [prev[|prev| - 1] + [cells]] == sa + (si[..|si| - 1] + [si[|si| - 1] + [cells]])
  {
    var prev := sa + si;
    assert prev[..|prev| - 1] == sa + si[..|si| - 1];
    assert prev[|prev| - 1] == si[|si| - 1];
  }

  /** A header line contributes no row and closes the group being built: the grids of
      a file are those before the header followed by those after it. In particular
      headers at the start, or several in a row, yield no empty grid. */
  lemma HeaderSeparates(a: seq<Item>, b: seq<Item>)
    ensures Runs(a + [Header] + b) == Runs(a) + Runs(b)
    ensures Runs([Header] + b) == Runs(b)
  {
    SegmentsConcat(a, b);
    NonEmptyConcat(Segments(a), Segments(b));
    SegmentsConcat([], b);
    NonEmptyConcat(Segments([]), Segments(b));
    assert [] + [Header] + b == [Header] + b;
  }

  lemma {:induction false} SegmentsOfRows(g: Grid)
    ensures Segments(RowItems(g)) == [g]
  {
    if g != [] {
      var init := g[..|g| - 1];
      assert RowItems(g)[..|g| - 1] == RowItems(init);
      SegmentsOfRows(init);
      assert g == init + [g[|g| - 1]];
    }
  }

  /** The last group is emitted even when no header follows it. */
  lemma FinalGroupEmitted(a: seq<Item>, g: Grid)
    requires g != []
    ensures Runs(a + [Header] + RowItems(g)) == Runs(a) + [g]
    ensures Runs(RowItems(g)) == [g]
  {
    HeaderSeparates(a, RowItems(g));
    SegmentsOfRows(g);
    assert NonEmpty([g]) == NonEmpty([g][..0]) + [g];
  }

  lemma {:induction false} FlattenNonEmpty(segs: seq<Grid>)
    ensures Flatten(NonEmpty(segs)) == Flatten(segs)
  {
    if segs != [] {
      var init := segs[..|segs| - 1];
      FlattenNonEmpty(init);
      var last := segs[|segs| - 1];
      if last != [] {
        assert (NonEmpty(init) + [last])[..|NonEmpty(init)|] == NonEmpty(init);
      } else {
        calc {
          Flatten(NonEmpty(segs));
          { assert NonEmpty(segs) == NonEmpty(init); }
          Flatten(NonEmpty(init));
          Flatten(init);
          { assert Flatten(segs) == Flatten(init) + last; }
          Flatten(segs);
        }
      }
    }
  }

  lemma {:induction false} FlattenSegments(items: seq<Item>)
    ensures Flatten(Segments(items)) == RowsOf(items)
  {
    if items != [] {
      var init := items[..|items| - 1];
      FlattenSegments(init);
      var prev := Segments(init);
      match items[|items| - 1]
      case Header =>
        assert (prev + [[]])[..|prev|] == prev;
      case Row(cells) =>
        var front, last := prev[..|prev| - 1], prev[|prev| - 1];
        assert Flatten(prev) == Flatten(front) + last;
        assert (front + [last + [cells]])[..|front|] == front;
    }
  }

  /** No row is lost, added or moved by the grouping: the grids' rows, read in order,
      are the rows of the file. */
  lemma RunsKeepRows(items: seq<Item>)
    ensures Flatten(Runs(items)) == RowsOf(items)
  {
    FlattenNonEmpty(Segments(items));
    FlattenSegments(items);
  }

  lemma {:induction false} RowsOfLines(lines: seq<string>)
    requires Classify(lines).Ok?
    ensures var rows := RowsOf(Classify(lines).value);
      && |rows| == |NonHeaderLines(lines)|
      && forall k :: 0 <= k < |rows| ==> ParseRow(NonHeaderLines(lines)[k]) == Ok(rows[k])
  {
    if lines != [] {
      var init := lines[..|lines| - 1];
      RowsOfLines(init);
      var items := Classify(lines).value;
      assert items[..|items| - 1] == Classify(init).value;
    }
  }

  /** Each line that does not start with `Day` becomes exactly one row of the result,
      the integers it holds, in file order; so the grids hold as many rows in all as
      the file has non-header lines. No returned grid is empty. */
  lemma ReadKeepsRows(lines: seq<string>)
    requires ReadFluDataSpec(lines).Ok?
    ensures var gs := ReadFluDataSpec(lines).value;
      && (forall k :: 0 <= k < |gs| ==> gs[k] != [])
      && |Flatten(gs)| == |NonHeaderLines(lines)|
      && forall k :: 0 <= k < |Flatten(gs)| ==> ParseRow(NonHeaderLines(lines)[k]) == Ok(Flatten(gs)[k])
  {
    RunsKeepRows(Classify(lines).value);
    RowsOfLines(lines);
  }

  // ---------------------------------------------------------------------
  // Reading back what the simulator writes

  lemma {:induction false} NatToStringDigits(n: nat)
    ensures AllDigits(Report.NatToString(n))
    ensures DigitsValue(Report.NatToString(n)) == n
  {
    var s := Report.NatToString(n);
    if n >= 10 {
      NatToStringDigits(n / 10);
      assert s[..|s| - 1] == Report.NatToString(n / 10);
    }
  }

  /** `int()` reads back the value `operator<<` wrote, and the text has no whitespace. */
  lemma {:induction false} ParseIntRoundTrip(n: int)
    ensures ParseInt(Report.IntToString(n)) == Some(n)
    ensures NoSpace(Report.IntToString(n))
    ensures IsDigit(Report.IntToString(n)[0]) || Report.IntToString(n)[0] == '-'
  {
    var s := Report.IntToString(n);
    assert NoSpace(s) by {
      forall k | 0 <= k < |s|
        ensures !IsSpace(s[k])
      {
        assert s[k] == '-' || '0' <= s[k] <= '9';
      }
    }
    if n < 0 {
      var d := Report.NatToString(-n);
      assert s[0] == '-' && s[1..] == d;
      assert DigitsValue(d) == -n by {
        NatToStringDigits(-n);
      }
    } else {
      assert s == Report.NatToString(n);
      assert AllDigits(s) && DigitsValue(s) == n by {
        NatToStringDigits(n);
      }
    }
  }

  lemma {:induction false} SplitWord(t: string, rest: string, w: string)
    requires NoSpace(t) && w + t != []
    ensures SplitFrom(t + " " + rest, w) == [w + t] + SplitFrom(rest, [])
    decreases |t|
  {
    if t == [] {
      assert t + " " + rest == [' '] + rest;
      assert w + t == w;
    } else {
      assert (t + " " + rest)[1..] == t[1..] + " " + rest;
      SplitWord(t[1..], rest, w + [t[0]]);
      assert (w + [t[0]]) + t[1..] == w + t;
    }
  }

  /** The words of a row line are its first value's text followed by the words of the rest. */
  lemma {:induction false} SplitRowLine(row: seq<int>)
    requires row != []
    ensures Split(Report.RowLine(row)) == [Report.IntToString(row[0])] + Split(Report.RowLine(row[1..]))
  {
    var t, rest := Report.IntToString(row[0]), Report.RowLine(row[1..]);
    assert Report.RowLine(row) == t + " " + rest;
    ParseIntRoundTrip(row[0]);
    SplitWord(t, rest, []);
    assert [] + t == t;
  }

  /** A row line reads back as the row it was written from. */
  lemma {:induction false} RowLineRoundTrip(row: seq<int>)
    ensures ParseRow(Report.RowLine(row)) == Ok(row)
    ensures !IsHeader(Report.RowLine(row))
  {
    if row != [] {
      var t := Report.IntToString(row[0]);
      var ts := Split(Report.RowLine(row));
      assert ts[0] == t && ts[1..] == Split(Report.RowLine(row[1..])) by { SplitRowLine(row); }
      assert ParseInt(t) == Some(row[0]) by { ParseIntRoundTrip(row[0]); }
      assert ParseTokens(ts[1..]) == Ok(row[1..]) by { RowLineRoundTrip(row[1..]); }
      assert ParseTokens(ts) == Ok([row[0]] + row[1..]);
      assert row == [row[0]] + row[1..];
      assert Report.RowLine(row)[0] == t[0];
    }
  }

  lemma HeaderLine(day: int)
    ensures IsHeader(Report.Header(day))
    ensures ClassifyLine(Report.Header(day)) == Ok(Header)
  {
    assert Report.Header(day)[..3] == "Day";
  }

  lemma RowLineClassifies(row: seq<int>)
    ensures ClassifyLine(Report.RowLine(row)) == Ok(Row(row))
  {
    RowLineRoundTrip(row);
  }

  /** The lines one call of `printGridToFile` writes classify as a header followed by
      the grid's rows. */
  lemma GridLineItem(g: Grid, day: int, k: nat)
    requires k <= |g|
    ensures ClassifyLine(Report.GridLines(g, day)[k]) == Ok(([Header] + RowItems(g))[k])
  {
    Report.GridLinesAt(g, day, k);
    if k == 0 {
      HeaderLine(day);
    } else {
      RowLineClassifies(g[k - 1]);
      assert ([Header] + RowItems(g))[k] == Row(g[k - 1]);
    }
  }

  lemma GridLinesItems(g: Grid, day: int)
    ensures Classify(Report.GridLines(g, day)) == Ok([Header] + RowItems(g))
  {
    var lines := Report.GridLines(g, day);
    var items := [Header] + RowItems(g);
    forall k | 0 <= k < |lines|
      ensures ClassifyLine(lines[k]) == Ok(items[k])
    {
      GridLineItem(g, day, k);
    }
    ClassifyAll(lines, items);
  }

  /** The items of a whole output file. */
  function ItemsOf(gs: seq<Grid>): seq<Item>
  {
    if gs == [] then [] else ItemsOf(gs[..|gs| - 1]) + [Header] + RowItems(gs[|gs| - 1])
  }

  lemma {:induction false} LogItems(gs: seq<Grid>)
    ensures Classify(Report.Log(gs)) == Ok(ItemsOf(gs))
  {
    if gs != [] {
      var init, last := gs[..|gs| - 1], gs[|gs| - 1];
      var block := Report.GridLines(last, |init|);
      assert Report.Log(gs) == Report.Log(init) + block by {
        assert gs == init + [last];
        Report.LogSnoc(init, last);
      }
      var items := ItemsOf(init) + ([Header] + RowItems(last));
      assert Classify(Report.Log(init) + block) == Ok(items) by {
        LogItems(init);
        GridLinesItems(last, |init|);
        ClassifyAppend(Report.Log(init), block);
      }
      assert items == ItemsOf(gs);
    }
  }

  lemma {:induction false} RunsOfItems(gs: seq<Grid>)
    requires forall k :: 0 <= k < |gs| ==> gs[k] != []
    ensures Runs(ItemsOf(gs)) == gs
  {
    if gs != [] {
      var init, last := gs[..|gs| - 1], gs[|gs| - 1];
      assert Runs(ItemsOf(init)) == init by {
        assert forall k :: 0 <= k < |init| ==> init[k] == gs[k];
        RunsOfItems(init);
      }
      assert Runs(ItemsOf(gs)) == Runs(ItemsOf(init)) + [last] by {
        assert ItemsOf(gs) == ItemsOf(init) + [Header] + RowItems(last);
        FinalGroupEmitted(ItemsOf(init), last);
      }
      assert gs == init + [last];
    }
  }

  /** Writer/reader round trip: reading the file written by one `printGridToFile` call
      per grid, days numbered from 0, gives back those grids in order, provided each
      grid has at least one row (a grid without rows writes only its header). */
  lemma LogRoundTrip(gs: seq<Grid>)
    requires forall k :: 0 <= k < |gs| ==> |gs[k]| >= 1
    ensures ReadFluDataSpec(Report.Log(gs)) == Ok(gs)
  {
    LogItems(gs);
    RunsOfItems(gs);
  }
}
