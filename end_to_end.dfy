/**
 * The simulator's output file read back by the visualiser: what
 * `read_flu_data` (fluVis.py) returns for the file the day loop of
 * `main` (FluTransmission/FluTransmission.cpp) writes.
 */
module EndToEnd {
  import opened Wrappers
  import opened Epidemic
  import Report
  import FluVis
  import FluVisProperties

  /** For a grid with at least one row, the visualiser recovers exactly the grids
      the simulator printed, one per day and in order. */
  lemma {:induction false} SimulationReadBack(p: Params)
    requires p.height >= 1
    ensures FluVis.ReadFluDataSpec(Report.Log(Printed(p))) == Ok(Printed(p))
  {
    FluVisProperties.LogRoundTrip(Printed(p));
  }

  /** With the values the program is compiled with (15 rows, 10 days), the output file
      has 10 blocks of 16 lines, and the reader gives back the 10 printed grids. */
  lemma {:induction false} DefaultRun()
    ensures |Report.Log(Printed(Defaults))| == 10 * 16
    ensures FluVis.ReadFluDataSpec(Report.Log(Printed(Defaults))) == Ok(Printed(Defaults))
    ensures |Printed(Defaults)| == 10
  {
    var gs := Printed(Defaults);
    Report.LogLength(gs, 15);
    SimulationReadBack(Defaults);
  }
}
