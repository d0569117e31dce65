/**
 * The city simulation of city.ts: a fixed 20 x 20 grid of cells, the guarded
 * commands `build` and `destroy`, the per-cell growth rule `tickCell`, and the city
 * totals that `updateStats` recomputes. The growth rule and the totals are stated
 * as functions on cell values; the `City` class updates its cell objects in place
 * and is proved to follow them.
 */
module Simulation {
  import opened Wrappers
  import opened Coords
  import opened Cells

  /** city.ts `City.size`. */
  const Size: nat := 20

  predicate InGrid(c: Coord) {
    0 <= c.i < Size && 0 <= c.j < Size
  }

  /** The value of the whole grid, row by row. */
  type Grid = seq<seq<CellState>>

  ghost predicate IsGrid(g: Grid) {
    |g| == Size && forall i :: 0 <= i < Size ==> |g[i]| == Size
  }

  ghost predicate AllConsistent(g: Grid)
    requires IsGrid(g)
  {
    forall i, j :: 0 <= i < Size && 0 <= j < Size ==> g[i][j].Consistent()
  }

  /** The grid of a newly constructed city. */
  function DefaultGrid(): (g: Grid)
    ensures IsGrid(g)
    ensures forall i, j :: 0 <= i < Size && 0 <= j < Size ==> g[i][j] == Default
  {
    seq(Size, i => seq(Size, j => Default))
  }

  /** The grid with the cell at `c` replaced by `v`. */
  function With(g: Grid, c: Coord, v: CellState): (r: Grid)
    requires 0 <= c.i < |g| && 0 <= c.j < |g[c.i]|
    ensures |r| == |g| && forall i :: 0 <= i < |g| ==> |r[i]| == |g[i]|
    ensures r[c.i][c.j] == v
    ensures forall i, j :: 0 <= i < |g| && 0 <= j < |g[i]| && (i != c.i || j != c.j) ==> r[i][j] == g[i][j]
    ensures v == g[c.i][c.j] ==> r == g
  {
    assert v == g[c.i][c.j] ==> g[c.i][c.j := v] == g[c.i];
    g[c.i := g[c.i][c.j := v]]
  }

  lemma WithTwice(g: Grid, c: Coord, v: CellState, w: CellState)
    requires 0 <= c.i < |g| && 0 <= c.j < |g[c.i]|
    ensures With(With(g, c, v), c, w) == With(g, c, w)
  {
    assert g[c.i][c.j := v][c.j := w] == g[c.i][c.j := w];
  }

  // ----- The growth rule (city.ts tickCell) -----

  function Min(a: int, b: int): (m: int)
    ensures m <= a && m <= b && (m == a || m == b)
  {
    if a <= b then a else b
  }

  /**
   * `Math.ceil(10 + 0.01 * (jobs + population))`, over the integers:
   * ten plus the number of hundreds in the city's residents and jobs, rounded up.
   */
  function Fudge(population: nat, jobs: nat): (f: nat)
    ensures f >= 10
    ensures 100 * (f - 10) >= jobs + population > 100 * (f - 11)
  {
    10 + (jobs + population + 99) / 100
  }

  /** The demand that makes a house grow: jobs not yet filled, plus the fudge factor. */
  function HouseDemand(population: nat, jobs: nat): (d: int)
    ensures d >= jobs - population + 10
    ensures 100 * (d - (jobs - population) - 11) < jobs + population
    ensures jobs >= population ==> d >= 10
  {
    jobs - population + Fudge(population, jobs)
  }

  /** The demand that makes an office grow: residents without a job, plus the fudge factor. */
  function OfficeDemand(population: nat, jobs: nat): (d: int)
    ensures d >= population - jobs + 10
    ensures 100 * (d - (population - jobs) - 11) < jobs + population
    ensures population > jobs ==> d > 10
  {
    population - jobs + Fudge(population, jobs)
  }

  /**
   * The cell at the ticked coordinate after `tickCell`, given the city totals. A house
   * grows while there is demand for residents; an office grows while the city has more
   * residents than jobs. Either first advances one stage when the demand would fill
   * the next stage, then fills up towards its (new) capacity. Other cells are untouched.
   */
  function TickedCell(c: CellState, population: nat, jobs: nat): (r: CellState)
    requires c.Consistent()
    ensures r.Consistent()
    ensures r.kind == c.kind
    ensures c.stage <= r.stage <= c.stage + 1
    ensures c.population <= r.population && c.jobs <= r.jobs
    // Growth is gated: nothing changes unless the cell is a house with demand, or an
    // office in a city with more residents than jobs.
    ensures r != c ==> (c.kind == House && HouseDemand(population, jobs) > 0)
                       || (c.kind == Office && population > jobs)
    ensures c.kind == House ==> r.jobs == c.jobs
    ensures c.kind == Office ==> r.population == c.population
    // When the advance happens.
    ensures c.kind == House ==>
              (r.stage == c.stage + 1 <==>
                 && HouseDemand(population, jobs) > 0
                 && c.stage < MaxStage
                 && HouseDemand(population, jobs) >= PopulationStages[c.stage + 1] - c.population)
    ensures c.kind == Office ==>
              (r.stage == c.stage + 1 <==>
                 && population > jobs
                 && c.stage < MaxStage
                 && OfficeDemand(population, jobs) > JobStages[c.stage + 1] - c.jobs)
    // How far it fills up.
    ensures c.kind == House && HouseDemand(population, jobs) > 0 ==>
              r.population == Min(c.population + HouseDemand(population, jobs), r.MaxPopulation())
    ensures c.kind == Office && population > jobs ==>
              r.jobs == Min(c.jobs + OfficeDemand(population, jobs), r.MaxJobs())
    // A cell that advances a stage is full at its new stage.
    ensures r.stage > c.stage ==> r.population == r.MaxPopulation() && r.jobs == r.MaxJobs()
  {
    match c.kind
    case House => GrowHouse(c, HouseDemand(population, jobs))
    case Office => GrowOffice(c, population - jobs, OfficeDemand(population, jobs))
    case _ => c
  }

  /** The house branch of `tickCell`, for a given demand. */
  function GrowHouse(c: CellState, demand: int): (r: CellState)
    requires c.stage <= MaxStage
    ensures r.kind == c.kind && r.jobs == c.jobs
    ensures c.stage <= r.stage <= c.stage + 1 && c.population <= r.population
    ensures demand <= 0 ==> r == c
    ensures r.stage == c.stage + 1 <==>
              demand > 0 && c.stage < MaxStage && demand >= PopulationStages[c.stage + 1] - c.population
    ensures c.kind == House && c.Consistent() ==> r.Consistent()
  {
    if demand > 0 then
      var advanced := c.stage < MaxStage && demand >= PopulationStages[c.stage + 1] - c.population;
      var staged := if advanced then c.(stage := c.stage + 1) else c;
      if demand > 0 && staged.population < staged.MaxPopulation() then
        staged.(population := Min(staged.population + demand, staged.MaxPopulation()))
      else
        staged
    else
      c
  }

  /** The office branch of `tickCell`, for a given surplus of residents and demand. */
  function GrowOffice(c: CellState, surplus: int, demand: int): (r: CellState)
    requires c.stage <= MaxStage
    ensures r.kind == c.kind && r.population == c.population
    ensures c.stage <= r.stage <= c.stage + 1 && c.jobs <= r.jobs
    ensures surplus <= 0 ==> r == c
    ensures r.stage == c.stage + 1 <==>
              surplus > 0 && c.stage < MaxStage && demand > JobStages[c.stage + 1] - c.jobs
    ensures c.kind == Office && c.Consistent() ==> r.Consistent()
  {
    if surplus > 0 then
      var advanced := c.stage < MaxStage && demand > JobStages[c.stage + 1] - c.jobs;
      var staged := if advanced then c.(stage := c.stage + 1) else c;
      if demand > 0 && staged.jobs < staged.MaxJobs() then
        staged.(jobs := Min(staged.jobs + demand, staged.MaxJobs()))
      else
        staged
    else
      c
  }

  // ----- City totals (city.ts updateStats) -----

  /** The two totals the city keeps. */
  datatype Quantity = Residents | Workplaces

  function Amount(c: CellState, q: Quantity): nat {
    match q
    case Residents => c.population
    case Workplaces => c.jobs
  }

  /** Sum of a quantity over a row, accumulated left to right. */
  function RowSum(row: seq<CellState>, q: Quantity): nat {
    if row == [] then 0 else RowSum(row[..|row| - 1], q) + Amount(row[|row| - 1], q)
  }

  /** Sum of a quantity over a grid, accumulated row by row. */
  function GridSum(g: Grid, q: Quantity): nat {
    if g == [] then 0 else GridSum(g[..|g| - 1], q) + RowSum(g[|g| - 1], q)
  }

  /** Extending a row prefix by one cell adds that cell's amount. */
  lemma RowSumStep(row: seq<CellState>, j: nat, q: Quantity)
    requires j < |row|
    ensures RowSum(row[..j + 1], q) == RowSum(row[..j], q) + Amount(row[j], q)
  {
    assert row[..j + 1][..j] == row[..j];
  }

  /** Extending a grid prefix by one row adds that row's sum. */
  lemma GridSumStep(g: Grid, i: nat, q: Quantity)
    requires i < |g|
    ensures GridSum(g[..i + 1], q) == GridSum(g[..i], q) + RowSum(g[i], q)
  {
    assert g[..i + 1][..i] == g[..i];
  }

  lemma {:induction false} RowSumUpdate(row: seq<CellState>, j: nat, v: CellState, q: Quantity)
    requires j < |row|
    ensures RowSum(row[j := v], q) == RowSum(row, q) - Amount(row[j], q) + Amount(v, q)
    decreases |row|
  {
    var n := |row|;
    if j == n - 1 {
      assert row[j := v][..n - 1] == row[..n - 1];
    } else {
      assert row[j := v][..n - 1] == row[..n - 1][j := v];
      RowSumUpdate(row[..n - 1], j, v, q);
    }
  }

  /** Replacing one cell changes a total by exactly that cell's change. */
  lemma {:induction false} GridSumUpdate(g: Grid, c: Coord, v: CellState, q: Quantity)
    requires 0 <= c.i < |g| && 0 <= c.j < |g[c.i]|
    ensures GridSum(With(g, c, v), q) == GridSum(g, q) - Amount(g[c.i][c.j], q) + Amount(v, q)
    decreases |g|
  {
    var n := |g|;
    var r := With(g, c, v);
    if c.i == n - 1 {
      assert r[..n - 1] == g[..n - 1];
      RowSumUpdate(g[c.i], c.j, v, q);
    } else {
      assert r[..n - 1] == With(g[..n - 1], c, v);
      GridSumUpdate(g[..n - 1], c, v, q);
    }
  }

  lemma {:induction false} RowSumZero(row: seq<CellState>, q: Quantity)
    requires forall j :: 0 <= j < |row| ==> Amount(row[j], q) == 0
    ensures RowSum(row, q) == 0
    decreases |row|
  {
    if row != [] {
      RowSumZero(row[..|row| - 1], q);
    }
  }

  /** A grid whose cells hold none of a quantity totals zero of it. */
  lemma {:induction false} GridSumZero(g: Grid, q: Quantity)
    requires forall i, j :: 0 <= i < |g| && 0 <= j < |g[i]| ==> Amount(g[i][j], q) == 0
    ensures GridSum(g, q) == 0
    decreases |g|
  {
    if g != [] {
      RowSumZero(g[|g| - 1], q);
      GridSumZero(g[..|g| - 1], q);
    }
  }

  /** A tick never lowers the city's residents or jobs, summed over the grid. */
  lemma TickNeverLowersTotals(g: Grid, c: Coord, population: nat, jobs: nat, q: Quantity)
    requires IsGrid(g) && InGrid(c) && g[c.i][c.j].Consistent()
    ensures GridSum(With(g, c, TickedCell(g[c.i][c.j], population, jobs)), q) >= GridSum(g, q)
  {
    GridSumUpdate(g, c, TickedCell(g[c.i][c.j], population, jobs), q);
  }

  /**
   * Building on a grass cell of a consistent grid and then destroying the same cell
   * gives back the grid as it was.
   */
  lemma BuildThenDestroyRestoresGrid(g: Grid, c: Coord, t: CellType)
    requires IsGrid(g) && AllConsistent(g) && InGrid(c) && g[c.i][c.j].kind == Grass
    ensures var built := With(g, c, BuildCell(g[c.i][c.j], t).cell);
            With(built, c, DestroyCell(built[c.i][c.j]).cell) == g
  {
    BuildThenDestroy(g[c.i][c.j], t);
    WithTwice(g, c, BuildCell(g[c.i][c.j], t).cell, DestroyCell(BuildCell(g[c.i][c.j], t).cell).cell);
  }

  /** The house case of `tickCell`, on the cell object: `GrowHouse` in place. */
  method TickHouse(cell: Cell, populationDemand: int)
    requires cell.stage <= MaxStage
    modifies cell
    ensures cell.State() == GrowHouse(old(cell.State()), populationDemand)
  {
    if populationDemand > 0 {
      if cell.stage < MaxStage
         && populationDemand >= PopulationStages[cell.stage + 1] - cell.population {
        cell.stage := cell.stage + 1;
      }
      if populationDemand > 0 && cell.population < cell.MaxPopulation() {
        cell.population := Min(cell.population + populationDemand, cell.MaxPopulation());
      }
    }
  }

  /**
   * The office case of `tickCell`, on the cell object: `GrowOffice` in place, where
   * `surplus` is the city's residents minus its jobs.
   */
  method TickOffice(cell: Cell, surplus: int, jobDemand: int)
    requires cell.stage <= MaxStage
    modifies cell
    ensures cell.State() == GrowOffice(old(cell.State()), surplus, jobDemand)
  {
    if surplus > 0 {
      if cell.stage < MaxStage && jobDemand > JobStages[cell.stage + 1] - cell.jobs {
        cell.stage := cell.stage + 1;
      }
      if jobDemand > 0 && cell.jobs < cell.MaxJobs() {
        cell.jobs := Min(cell.jobs + jobDemand, cell.MaxJobs());
      }
    }
  }

  // ----- Repeated ticks -----

  /**
   * The grid after `tick` has been called once per coordinate of `picks`, in order,
   * starting from totals `population` and `jobs` (the city's fields, which may be stale
   * after a build or destroy): each tick grows the picked cell and then recomputes the
   * totals from the grid.
   */
  function Run(g: Grid, population: nat, jobs: nat, picks: seq<Coord>): (r: Grid)
    requires IsGrid(g) && AllConsistent(g)
    requires forall k :: 0 <= k < |picks| ==> InGrid(picks[k])
    ensures IsGrid(r) && AllConsistent(r)
    decreases |picks|
  {
    if picks == [] then g
    else
      var c := picks[0];
      assert InGrid(c);
      var next := With(g, c, TickedCell(g[c.i][c.j], population, jobs));
      Run(next, GridSum(next, Residents), GridSum(next, Workplaces), picks[1..])
  }

  /**
   * Over any run of ticks, every cell keeps its type, its stage rises by at most one
   * per tick and never falls, and its residents and jobs never fall. (That capacities
   * are respected throughout is `AllConsistent`, in `Run`'s own contract.)
   */
  lemma {:induction false} RunMonotone(g: Grid, population: nat, jobs: nat, picks: seq<Coord>, i: nat, j: nat)
    requires IsGrid(g) && AllConsistent(g)
    requires forall k :: 0 <= k < |picks| ==> InGrid(picks[k])
    requires i < Size && j < Size
    ensures var r := Run(g, population, jobs, picks)[i][j];
            && r.kind == g[i][j].kind
            && g[i][j].stage <= r.stage <= g[i][j].stage + |picks|
            && g[i][j].population <= r.population
            && g[i][j].jobs <= r.jobs
    decreases |picks|
  {
    if picks != [] {
      var c := picks[0];
      var next := With(g, c, TickedCell(g[c.i][c.j], population, jobs));
      RunMonotone(next, GridSum(next, Residents), GridSum(next, Workplaces), picks[1..], i, j);
    }
  }

  /** A cell that no tick of a run picks ends the run exactly as it began. */
  lemma {:induction false} RunUntouched(g: Grid, population: nat, jobs: nat, picks: seq<Coord>, i: nat, j: nat)
    requires IsGrid(g) && AllConsistent(g)
    requires forall k :: 0 <= k < |picks| ==> InGrid(picks[k])
    requires i < Size && j < Size && Coord(i, j) !in picks
    ensures Run(g, population, jobs, picks)[i][j] == g[i][j]
    decreases |picks|
  {
    if picks != [] {
      var c := picks[0];
      assert InGrid(c);
      var next := With(g, c, TickedCell(g[c.i][c.j], population, jobs));
      assert Coord(i, j) !in picks[1..];
      RunUntouched(next, GridSum(next, Residents), GridSum(next, Workplaces), picks[1..], i, j);
    }
  }

  /**
   * A run extended by one more tick: the last tick grows its cell under the totals the
   * earlier ticks left (the starting totals when there were none).
   */
  lemma {:induction false} RunSnoc(g: Grid, population: nat, jobs: nat, picks: seq<Coord>, c: Coord)
    requires IsGrid(g) && AllConsistent(g)
    requires forall k :: 0 <= k < |picks| ==> InGrid(picks[k])
    requires InGrid(c)
    ensures forall k :: 0 <= k < |picks + [c]| ==> InGrid((picks + [c])[k])
    ensures var r := Run(g, population, jobs, picks);
            var p := if picks == [] then population else GridSum(r, Residents);
            var q := if picks == [] then jobs else GridSum(r, Workplaces);
            Run(g, population, jobs, picks + [c]) == With(r, c, TickedCell(r[c.i][c.j], p, q))
    decreases |picks|
  {
    assert forall k :: 0 <= k < |picks + [c]| ==> InGrid((picks + [c])[k]) by {
      forall k | 0 <= k < |picks + [c]|
        ensures InGrid((picks + [c])[k])
      {
        if k < |picks| {
          assert (picks + [c])[k] == picks[k];
        }
      }
    }
    if picks == [] {
      assert picks + [c] == [c];
    } else {
      var d := picks[0];
      assert InGrid(d);
      var next := With(g, d, TickedCell(g[d.i][d.j], population, jobs));
      assert (picks + [c])[0] == d;
      assert (picks + [c])[1..] == picks[1..] + [c];
      RunSnoc(next, GridSum(next, Residents), GridSum(next, Workplaces), picks[1..], c);
    }
  }

  /**
   * One tick of a run, seen from any cell: the cell keeps its type, its stage rises by
   * at most one and never falls, and its residents and jobs never fall.
   */
  lemma RunStep(g: Grid, population: nat, jobs: nat, picks: seq<Coord>, k: nat, i: nat, j: nat)
    requires IsGrid(g) && AllConsistent(g)
    requires forall m :: 0 <= m < |picks| ==> InGrid(picks[m])
    requires k < |picks| && i < Size && j < Size
    ensures var before := Run(g, population, jobs, picks[..k])[i][j];
            var after := Run(g, population, jobs, picks[..k + 1])[i][j];
            && after.kind == before.kind
            && before.stage <= after.stage <= before.stage + 1
            && before.population <= after.population
            && before.jobs <= after.jobs
  {
    assert InGrid(picks[k]);
    assert picks[..k + 1] == picks[..k] + [picks[k]];
    RunSnoc(g, population, jobs, picks[..k], picks[k]);
  }

  /** In a new, empty city, a freshly built house first grows to stage 1 with 4 residents. */
  lemma FirstHouseGrows()
    ensures TickedCell(CellState(House, 0, 0, 0), 0, 0) == CellState(House, 1, 4, 0)
  {
  }

  /** An office does not grow in a city with no residents. */
  lemma FirstOfficeWaits()
    ensures TickedCell(CellState(Office, 0, 0, 0), 0, 0) == CellState(Office, 0, 0, 0)
  {
  }

  // ----- The city -----

  class City {
    /** The cell objects, one per slot; the array is never replaced. */
    const grid: array2<Cell>
    /** Totals as of the last `UpdateStats`. */
    var population: nat
    var jobs: nat

    /** The value of every cell. */
    ghost var cells: Grid
    /** The slot of each cell object: since each names one slot, no two slots share a cell. */
    ghost const slots: map<Cell, Coord>
    /** The array and the cell objects. */
    ghost const Repr: set<object>

    ghost predicate Valid()
      reads this, Repr
    {
      && Repr == {grid} + slots.Keys
      && grid.Length0 == Size && grid.Length1 == Size
      // every slot owns its own cell object
      && (forall i, j :: 0 <= i < Size && 0 <= j < Size ==> grid[i, j] in slots && slots[grid[i, j]] == Coord(i, j))
      && IsGrid(cells)
      && (forall i, j :: 0 <= i < Size && 0 <= j < Size ==> grid[i, j].State() == cells[i][j])
      && AllConsistent(cells)
    }

    /** The totals are those of the current grid. */
    ghost predicate StatsCurrent()
      reads this
    {
      population == GridSum(cells, Residents) && jobs == GridSum(cells, Workplaces)
    }

    /** A city of default (grass) cells, each slot holding a cell object of its own. */
    constructor ()
      ensures Valid() && StatsCurrent() && fresh(Repr)
      ensures cells == DefaultGrid()
      ensures population == 0 && jobs == 0
    {
      var placeholder := new Cell();
      var g := new Cell[Size, Size]((i, j) => placeholder);
      ghost var m: map<Cell, Coord> := map[];
      for i := 0 to Size
        invariant forall a, b :: 0 <= a < i && 0 <= b < Size ==>
                    fresh(g[a, b]) && g[a, b].State() == Default && g[a, b] in m && m[g[a, b]] == Coord(a, b)
        invariant forall o :: o in m ==> fresh(o)
      {
        for j := 0 to Size
          invariant forall a, b :: 0 <= a < i && 0 <= b < Size ==>
                      fresh(g[a, b]) && g[a, b].State() == Default && g[a, b] in m && m[g[a, b]] == Coord(a, b)
          invariant forall b :: 0 <= b < j ==>
                      fresh(g[i, b]) && g[i, b].State() == Default && g[i, b] in m && m[g[i, b]] == Coord(i, b)
          invariant forall o :: o in m ==> fresh(o)
        {
          var cell := new Cell();
          g[i, j] := cell;
          m := m[cell := Coord(i, j)];
        }
      }
      grid := g;
      population, jobs := 0, 0;
      cells := DefaultGrid();
      slots := m;
      Repr := {g} + m.Keys;
      new;
      assert Default.Consistent();
      assert AllConsistent(cells);
      GridSumZero(cells, Residents);
      GridSumZero(cells, Workplaces);
    }

    /**
     * city.ts `getCell`: the cell object, or `undefined` (`None`) for a column outside
     * the grid. A row outside the grid makes the source throw, hence the precondition.
     */
    function GetCell(c: Coord): (r: Option<Cell>)
      reads this, Repr
      requires Valid() && 0 <= c.i < Size
      ensures r.Some? <==> 0 <= c.j < Size
      ensures r.Some? ==> r.value == grid[c.i, c.j] && r.value.State() == cells[c.i][c.j]
    {
      if 0 <= c.j < Size then Some(grid[c.i, c.j]) else None
    }

    /**
     * city.ts `getCellOrDefault` as written: a column outside the grid falls back to
     * the default cell, but a row outside the grid throws a TypeError (`grid[i]` is
     * `undefined` and is indexed again).
     */
    function GetCellOrDefaultAsWritten(c: Coord): (r: Completion<CellState>)
      reads this, Repr
      requires Valid()
      ensures !(0 <= c.i < Size) <==> r.Throws?
      ensures 0 <= c.i < Size && 0 <= c.j < Size ==> r == Returns(cells[c.i][c.j])
      ensures 0 <= c.i < Size && !(0 <= c.j < Size) ==> r == Returns(Default)
    {
      if !(0 <= c.i < Size) then Throws("TypeError")
      else if 0 <= c.j < Size then Returns(grid[c.i, c.j].State())
      else Returns(Default)
    }

    /** The row (-1, 0) just above the grid makes the as-written lookup throw. */
    lemma RowAboveGridThrows()
      requires Valid()
      ensures GetCellOrDefaultAsWritten(Coord(-1, 0)).Throws?
      ensures GetCellOrDefault(Coord(-1, 0)) == Default
    {
    }

    /**
     * `getCellOrDefault` as intended: the cell's value inside the grid and the default
     * grass cell anywhere outside it.
     */
    function GetCellOrDefault(c: Coord): (r: CellState)
      reads this, Repr
      requires Valid()
      ensures InGrid(c) ==> r == cells[c.i][c.j]
      ensures !InGrid(c) ==> r == Default && r.kind == Grass
      ensures 0 <= c.i < Size ==> GetCellOrDefaultAsWritten(c) == Returns(r)
    {
      if InGrid(c) then grid[c.i, c.j].State() else Default
    }

    /**
     * city.ts `build`: on a grass cell, sets its type (any type) and succeeds; on any
     * other cell fails and changes nothing.
     */
    method Build(c: Coord, t: CellType) returns (ok: bool)
      requires Valid() && InGrid(c)
      modifies this`cells, grid[c.i, c.j]
      ensures Valid()
      ensures ok == BuildCell(old(cells[c.i][c.j]), t).ok
      ensures cells == With(old(cells), c, BuildCell(old(cells[c.i][c.j]), t).cell)
      ensures !ok ==> cells == old(cells)
    {
      var cell := GetCell(c).value;
      if cell.kind != Grass {
        return false;
      }
      cell.kind := t;
      cells := With(cells, c, cell.State());
      return true;
    }

    /**
     * city.ts `destroy`: on a cell that is not grass, resets it to grass at stage 0
     * with no residents and no jobs and succeeds; on grass fails and changes nothing.
     */
    method Destroy(c: Coord) returns (ok: bool)
      requires Valid() && InGrid(c)
      modifies this`cells, grid[c.i, c.j]
      ensures Valid()
      ensures ok == DestroyCell(old(cells[c.i][c.j])).ok
      ensures cells == With(old(cells), c, DestroyCell(old(cells[c.i][c.j])).cell)
      ensures ok ==> cells[c.i][c.j] == Default
      ensures !ok ==> cells == old(cells)
    {
      var cell := GetCell(c).value;
      if cell.kind == Grass {
        return false;
      }
      cell.kind := Grass;
      cell.stage := 0;
      cell.population := 0;
      cell.jobs := 0;
      cells := With(cells, c, cell.State());
      return true;
    }

    /**
     * city.ts `tick`, with the random coordinate `(ri, rj)` as parameters: one step of
     * the growth rule at that cell, then fresh totals.
     */
    method Tick(ri: nat, rj: nat)
      requires Valid() && ri < Size && rj < Size
      modifies this`cells, this`population, this`jobs, grid[ri, rj]
      ensures Valid() && StatsCurrent()
      ensures cells == With(old(cells), Coord(ri, rj),
                            TickedCell(old(cells[ri][rj]), old(population), old(jobs)))
      ensures cells == Run(old(cells), old(population), old(jobs), [Coord(ri, rj)])
      ensures old(StatsCurrent()) ==> population >= old(population) && jobs >= old(jobs)
    {
      TickNeverLowersTotals(cells, Coord(ri, rj), population, jobs, Residents);
      TickNeverLowersTotals(cells, Coord(ri, rj), population, jobs, Workplaces);
      TickCell(Coord(ri, rj));
      UpdateStats();
    }

    /**
     * city.ts `tickCell`: applies the growth rule to the cell at `c`, updating its fields
     * in place, from the totals as of the last `UpdateStats`. No other cell changes.
     */
    method TickCell(c: Coord)
      requires Valid() && InGrid(c)
      modifies this`cells, grid[c.i, c.j]
      ensures Valid()
      ensures cells == With(old(cells), c, TickedCell(old(cells[c.i][c.j]), population, jobs))
    {
      var fudge := Fudge(population, jobs);
      var cell := GetCell(c).value;
      ghost var before := cell.State();
      match cell.kind {
        case House =>
          var populationDemand := jobs - population + fudge;
          TickHouse(cell, populationDemand);
        case Office =>
          var jobDemand := population - jobs + fudge;
          TickOffice(cell, population - jobs, jobDemand);
        case _ =>
      }
      assert cell.State() == TickedCell(before, population, jobs);
      cells := With(cells, c, cell.State());
    }

    /** city.ts `updateStats`: recomputes both totals as sums over the grid. */
    method UpdateStats()
      requires Valid()
      modifies this`population, this`jobs
      ensures Valid() && StatsCurrent()
    {
      population := 0;
      jobs := 0;
      for i := 0 to Size
        invariant population == GridSum(cells[..i], Residents)
        invariant jobs == GridSum(cells[..i], Workplaces)
      {
        for j := 0 to Size
          invariant population == GridSum(cells[..i], Residents) + RowSum(cells[i][..j], Residents)
          invariant jobs == GridSum(cells[..i], Workplaces) + RowSum(cells[i][..j], Workplaces)
        {
          var cell := grid[i, j];
          assert cell.State() == cells[i][j];
          RowSumStep(cells[i], j, Residents);
          RowSumStep(cells[i], j, Workplaces);
          population := population + cell.population;
          jobs := jobs + cell.jobs;
        }
        assert cells[i][..Size] == cells[i];
        GridSumStep(cells, i, Residents);
        GridSumStep(cells, i, Workplaces);
      }
      assert cells[..Size] == cells;
    }
  }
}
