/**
 * The text the simulator writes for one day, `printGridToFile`
 * (FluTransmission/FluTransmission.cpp:29-39), as a sequence of lines
 * without their line terminators: a header `Day <d>:`, then one line per
 * row in which every value is followed by a single space. Opening the file
 * in append mode is left to the caller, which concatenates the days.
 */
module Report {
  import opened Grids

  function DigitChar(d: nat): (c: char)
    requires d < 10
    ensures '0' <= c <= '9'
  {
    ('0' as int + d) as char
  }

  /** The decimal digits of `n`, most significant first, without leading zeros. */
  function NatToString(n: nat): (s: string)
    ensures |s| >= 1
    ensures forall k :: 0 <= k < |s| ==> '0' <= s[k] <= '9'
    ensures s[0] == '0' ==> n == 0
  {
    if n < 10 then [DigitChar(n)] else NatToString(n / 10) + [DigitChar(n % 10)]
  }

  /** How `operator<<` writes an `int`: a minus sign for a negative value, then its digits. */
  function IntToString(n: int): (s: string)
    ensures |s| >= 1
    ensures s[0] == '-' <==> n < 0
    ensures forall k :: 0 < k < |s| ==> '0' <= s[k] <= '9'
  {
    if n < 0 then "-" + NatToString(-n) else NatToString(n)
  }

  /** The header line of one day. */
  function Header(day: int): (h: string)
    ensures "Day " <= h && h[|h| - 1] == ':'
  {
    "Day " + IntToString(day) + ":"
  }

  /** One row: each value followed by a space. */
  function RowLine(row: seq<int>): (s: string)
    ensures s == [] <==> row == []
    ensures row != [] ==> s[|s| - 1] == ' '
    ensures |s| >= 2 * |row|
  {
    if row == [] then "" else IntToString(row[0]) + " " + RowLine(row[1..])
  }

  /** Everything one call writes: the header, then one line per row. */
  function GridLines(g: Grid, day: int): (ls: seq<string>)
    ensures |ls| == |g| + 1
  {
    [Header(day)] + seq(|g|, i requires 0 <= i < |g| => RowLine(g[i]))
  }

  /** Line `k` of a block: the header first, then row `k - 1`. */
  lemma GridLinesAt(g: Grid, day: int, k: nat)
    requires k <= |g|
    ensures GridLines(g, day)[k] == if k == 0 then Header(day) else RowLine(g[k - 1])
  {
  }

  /** The whole output file after one call per grid, with days numbered from 0. */
  function Log(gs: seq<Grid>): (ls: seq<string>)
    ensures |ls| >= |gs|
    ensures gs != [] ==> ls[0] == Header(0)
  {
    if gs == [] then [] else Log(gs[..|gs| - 1]) + GridLines(gs[|gs| - 1], |gs| - 1)
  }

  /** Printing one more grid appends its block, labelled with the next day. */
  lemma {:induction false} LogSnoc(gs: seq<Grid>, g: Grid)
    ensures Log(gs + [g]) == Log(gs) + GridLines(g, |gs|)
  {
    assert (gs + [g])[..|gs|] == gs;
  }

  lemma MulSucc(a: nat, m: nat)
    ensures (a + 1) * m == a * m + m
  {
  }

  /** When every grid has `h` rows, the file has `h + 1` lines per grid. */
  lemma {:induction false} LogLength(gs: seq<Grid>, h: nat)
    requires forall k :: 0 <= k < |gs| ==> |gs[k]| == h
    ensures |Log(gs)| == |gs| * (h + 1)
  {
    if gs != [] {
      var init := gs[..|gs| - 1];
      assert |Log(init)| == |init| * (h + 1) by {
        assert forall k :: 0 <= k < |init| ==> init[k] == gs[k];
        LogLength(init, h);
      }
      assert |Log(gs)| == |Log(init)| + (h + 1);
      MulSucc(|init|, h + 1);
    }
  }
}
