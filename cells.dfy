/**
 * Cells of the city grid (city.ts `CellType`, `Cell`, `POPULATION_STAGES`,
 * `JOB_STAGES`). A `Cell` is a mutable object owned by one grid slot; `CellState`
 * is its value, in terms of which the growth rule and the city totals are stated.
 */
module Cells {

  /** The closed set of cell types. `Destroy` is the tool the UI offers, not a real cell type. */
  datatype CellType = Destroy | Grass | House | Office | Road

  /** Residents a house holds at each stage. */
  const PopulationStages: seq<nat> := [0, 4, 8, 16, 32, 64, 128, 256]

  /** Jobs an office holds at each stage. */
  const JobStages: seq<nat> := [0, 8, 16, 32, 64, 128, 256, 512]

  /** The last stage: one below the length of both stage tables. */
  const MaxStage: nat := 7

  lemma StageTablesShape()
    ensures |PopulationStages| == |JobStages| == MaxStage + 1
    ensures forall s, t :: 0 <= s < t <= MaxStage ==> PopulationStages[s] < PopulationStages[t]
    ensures forall s, t :: 0 <= s < t <= MaxStage ==> JobStages[s] < JobStages[t]
  {
  }

  /** The value of one cell: its type, growth stage, residents and jobs. */
  datatype CellState = CellState(kind: CellType, stage: nat, population: nat, jobs: nat) {

    /** Resident capacity: the house ladder at this stage, and none for other types. */
    function MaxPopulation(): (r: nat)
      requires stage <= MaxStage
      ensures kind != House ==> r == 0
      ensures kind == House ==> r == PopulationStages[stage]
    {
      if kind != House then 0 else PopulationStages[stage]
    }

    /** Job capacity: the office ladder at this stage, and none for other types. */
    function MaxJobs(): (r: nat)
      requires stage <= MaxStage
      ensures kind != Office ==> r == 0
      ensures kind == Office ==> r == JobStages[stage]
    {
      if kind != Office then 0 else JobStages[stage]
    }

    /**
     * What every cell of a city satisfies: the stage indexes the ladders, residents
     * and jobs are within capacity (so only houses have residents and only offices
     * have jobs), and only houses and offices ever leave stage 0.
     */
    ghost predicate Consistent() {
      && stage <= MaxStage
      && population <= MaxPopulation()
      && jobs <= MaxJobs()
      && (kind != House && kind != Office ==> stage == 0)
    }
  }

  /** A newly created cell (city.ts `new Cell()`, `Cell.DEFAULT`). */
  const Default := CellState(Grass, 0, 0, 0)

  /** `Cell.DEFAULT`: an empty grass cell, with no capacity for residents or jobs. */
  lemma DefaultIsEmptyGrass()
    ensures Default.Consistent() && Default.kind == Grass && Default.stage == 0
    ensures Default.population == 0 && Default.jobs == 0
    ensures Default.MaxPopulation() == 0 && Default.MaxJobs() == 0
  {
  }

  /** A consistent grass cell is a default cell. */
  lemma GrassIsDefault(c: CellState)
    requires c.Consistent() && c.kind == Grass
    ensures c == Default
  {
  }

  /** The outcome of a command on one cell: whether it applied, and the cell afterwards. */
  datatype Applied = Applied(ok: bool, cell: CellState)

  /**
   * `City.build` on one cell: applies only to grass, and then sets the type and nothing
   * else. Any type is accepted, `Destroy` and `Grass` included.
   */
  function BuildCell(c: CellState, t: CellType): (r: Applied)
    ensures r.ok <==> c.kind == Grass
    ensures r.cell.kind == (if r.ok then t else c.kind)
    ensures r.cell.stage == c.stage && r.cell.population == c.population && r.cell.jobs == c.jobs
    ensures c.Consistent() ==> r.cell.Consistent()
  {
    if c.kind != Grass then Applied(false, c) else Applied(true, c.(kind := t))
  }

  /**
   * `City.destroy` on one cell: applies to anything but grass, and then resets the
   * cell to a default one.
   */
  function DestroyCell(c: CellState): (r: Applied)
    ensures r.ok <==> c.kind != Grass
    ensures r.ok ==> r.cell == Default
    ensures !r.ok ==> r.cell == c
    ensures c.Consistent() ==> r.cell.Consistent()
  {
    if c.kind == Grass then Applied(false, c) else Applied(true, CellState(Grass, 0, 0, 0))
  }

  /**
   * Building on a cell and then destroying it gives back the cell as it was, whatever
   * was built (building grass is a success that changes nothing, and the destroy
   * then fails).
   */
  lemma BuildThenDestroy(c: CellState, t: CellType)
    requires c.Consistent() && c.kind == Grass
    ensures BuildCell(c, t).ok
    ensures DestroyCell(BuildCell(c, t).cell).cell == c
    ensures DestroyCell(BuildCell(c, t).cell).ok <==> t != Grass
  {
    GrassIsDefault(c);
  }

  /** A grid cell. The city updates its fields in place. */
  class Cell {
    var kind: CellType
    var stage: nat
    var population: nat
    var jobs: nat

    constructor ()
      ensures State() == Default
    {
      kind, stage, population, jobs := Grass, 0, 0, 0;
    }

    /** The cell's current value. */
    function State(): CellState
      reads this
    {
      CellState(kind, stage, population, jobs)
    }

    /** city.ts `Cell.maxPopulation`. */
    function MaxPopulation(): (r: nat)
      reads this
      requires stage <= MaxStage
      ensures kind != House ==> r == 0
      ensures kind == House ==> r == PopulationStages[stage]
    {
      State().MaxPopulation()
    }

    /** city.ts `Cell.maxJobs`. */
    function MaxJobs(): (r: nat)
      reads this
      requires stage <= MaxStage
      ensures kind != Office ==> r == 0
      ensures kind == Office ==> r == JobStages[stage]
    {
      State().MaxJobs()
    }
  }
}
