# Toytown city core in Dafny

A model of the simulation core of Toytown, a tile-based city builder, and proofs about it.
The city is a fixed 20 x 20 grid of cells. Each cell has a type, a growth stage, its
residents and its jobs. The player runs two guarded commands on a cell: `build` and
`destroy`. A driver calls `tick` over and over. Each tick grows one randomly chosen cell
according to the city-wide supply and demand of residents and jobs. Then it recomputes
the city totals as sums over the grid. The model also covers the small array helpers of
`util.ts`.

Modules:

- `Wrappers` (`wrappers.dfy`): `Option` (JavaScript `undefined`) and `Completion` (a value, or
  a thrown error).
- `Coords` (`coords.dfy`): `Coord`, with `Offset` and `ToString`. A parser for the `"i,j"`
  form proves that the string key identifies its coordinate.
- `Cells` (`cells.dfy`): `CellType`, the stage ladders, the cell value `CellState` with its
  capacities, and the cell object `Cell`, whose fields the city updates in place. It also
  holds `build` and `destroy` stated on one cell.
- `Simulation` (`city.dfy`): the per-cell growth rule `TickedCell`, the grid sums, a run of
  many ticks, and the class `City`. `City` owns a `const grid: array2<Cell>`, one cell object
  per slot, plus the totals `population` and `jobs`. Its ghost field `cells` is the value of
  the grid. `Valid()` ties `cells` to the objects, says no two slots share a cell object, and
  says every cell is within capacity.
- `Util` (`util.dfy`): a JavaScript array is modelled as a `JsArray` object whose `elems`
  field `splice` reassigns. It holds `removeReference`, `removeRandom` and `pickRandom`.

The behaviour follows the code of `src/city.ts` and `src/util.ts`. This version of the game
has no cash or build costs, employment contracts, job matching, pathfinding, pollution or
traffic, so none of it is modelled. `build` only requires grass. A house advances a stage
whenever its demand would fill the next stage; it does not need to be full or to meet a
house-count threshold first. Looking up a row outside the grid throws.

Randomness becomes parameters. `tick`'s random coordinate is the pair `(ri, rj)`, each
below `Size`. The helpers' random index is `k`, drawn from `[0, max(length, 1))`.

`CellType`'s field is called `kind`, because `type` is a reserved word in Dafny.

## Model

| member | source | states |
|---|---|---|
| `Coords.Coord.Offset` | src/city.ts:11-13 | the result lies `di` rows and `dj` columns away from the coordinate |
| `Coords.Coord.ToString` | src/city.ts:7-9 | the key is at least three characters long (two numbers around a comma); `ToStringRoundTrip` shows it identifies the coordinate |
| `Coords.IntToString` | src/city.ts:7-9 | JavaScript's string form of an integral number is non-empty, has no comma, begins with '-' exactly for a negative number, and is all digits otherwise |
| `Coords.OffsetZero` | src/city.ts:11-13 | `c.Offset(0, 0)` equals `c` |
| `Coords.OffsetCompose` | src/city.ts:11-13 | two offsets in a row equal one offset by the sums of the components |
| `Coords.OffsetInverse` | src/city.ts:11-13 | offsetting by `(-di, -dj)` undoes an offset by `(di, dj)` |
| `Coords.NatToStringRoundTrip` | src/city.ts:7-9 | the decimal digits of a natural number read back as that number |
| `Coords.IntToStringRoundTrip` | src/city.ts:7-9 | JavaScript's string form of an integer (sign and digits) reads back as that integer |
| `Coords.ToStringRoundTrip` | src/city.ts:7-9 | splitting `i + ',' + j` at its first comma and parsing both halves gives back the coordinate |
| `Coords.ToStringInjective` | src/city.ts:7-9 | two coordinates have the same string key exactly when they are equal |
| `Cells.StageTablesShape` | src/city.ts:47-53 | both ladders have `MaxStage + 1` = 8 entries and strictly increase |
| `Cells.CellState.MaxPopulation` | src/city.ts:30-35 | resident capacity is 0 unless the cell is a house; for a house it is `POPULATION_STAGES[stage]` |
| `Cells.CellState.MaxJobs` | src/city.ts:37-42 | job capacity is 0 unless the cell is an office; for an office it is `JOB_STAGES[stage]` |
| `Cells.Cell.MaxPopulation` | src/city.ts:30-35 | the cell object's `maxPopulation()`, computed from its value, is 0 unless the object is a house and `POPULATION_STAGES[stage]` for a house |
| `Cells.Cell.MaxJobs` | src/city.ts:37-42 | the cell object's `maxJobs()`, computed from its value, is 0 unless the object is an office and `JOB_STAGES[stage]` for an office |
| `Cells.Cell.constructor` | src/city.ts:24-28 | a new cell is grass, at stage 0, with no residents and no jobs |
| `Cells.DefaultIsEmptyGrass` | src/city.ts:44 | `Cell.DEFAULT` is a consistent grass cell at stage 0 with no residents, no jobs and no capacity for either |
| `Cells.GrassIsDefault` | src/city.ts:24-28 | every consistent grass cell is the default cell, so grass never holds a stage, residents or jobs |
| `Cells.BuildCell` | src/city.ts:101-108 | build applies exactly when the cell is grass; it then sets the type (any type) and keeps stage, residents and jobs; it keeps the cell consistent |
| `Cells.DestroyCell` | src/city.ts:110-120 | destroy applies exactly when the cell is not grass; it then resets the cell to grass, stage 0, no residents, no jobs; on grass the cell is unchanged |
| `Cells.BuildThenDestroy` | src/city.ts:101-120 | on a consistent grass cell, build succeeds, and destroy afterwards gives back the original cell; that destroy reports success unless grass was built |
| `Simulation.DefaultGrid` | src/city.ts:63-71 | the grid of a new city is 20 x 20 default cells |
| `Simulation.Min` | src/city.ts:140 | `Math.min`: at most both arguments and equal to one of them |
| `Simulation.Fudge` | src/city.ts:129 | the fudge factor is 10 plus the number of hundreds in jobs + population, rounded up |
| `Simulation.HouseDemand` | src/city.ts:133 | a house's demand is the surplus of jobs over residents plus the fudge factor: at least that surplus plus 10, below it plus 11 plus a hundredth of the totals, and so at least 10 when jobs cover residents |
| `Simulation.OfficeDemand` | src/city.ts:145 | an office's demand is the surplus of residents over jobs plus the fudge factor, with the same bounds, and above 10 when residents outnumber jobs |
| `Simulation.GrowHouse` | src/city.ts:132-143 | the house branch keeps the type and the jobs, raises the stage by at most one and never lowers residents, changes nothing without positive demand, advances exactly when the demand would fill the next stage, and keeps a house consistent |
| `Simulation.GrowOffice` | src/city.ts:144-155 | the office branch keeps the type and the residents, raises the stage by at most one and never lowers jobs, changes nothing without a surplus of residents, advances exactly when the demand would overfill the next stage, and keeps an office consistent |
| `Simulation.TickedCell` | src/city.ts:128-157 | the growth rule keeps a cell consistent, keeps its type, raises its stage by at most one and never lowers it, never lowers residents or jobs, changes nothing unless the cell is a house with positive demand or an office in a city with more residents than jobs, leaves grass/road/destroy cells alone; states when the stage advances, how far the cell fills up, and that an advancing cell ends full |
| `Simulation.TickHouse` | src/city.ts:132-143 | the house branch, run in place on the cell object, yields the house growth rule |
| `Simulation.TickOffice` | src/city.ts:144-155 | the office branch, run in place on the cell object, yields the office growth rule |
| `Simulation.RowSumUpdate` | src/city.ts:163-167 | replacing one cell of a row changes the row's sum by that cell's change |
| `Simulation.GridSumUpdate` | src/city.ts:159-169 | replacing one cell of the grid changes a city total by exactly that cell's change |
| `Simulation.GridSumZero` | src/city.ts:60-71 | a grid holding no residents (or no jobs) totals 0, as for a new city |
| `Simulation.TickNeverLowersTotals` | src/city.ts:122-125 | a tick can only raise the grid sums of residents and of jobs |
| `Simulation.BuildThenDestroyRestoresGrid` | src/city.ts:101-120 | building on a grass cell and then destroying it gives back the whole grid |
| `Simulation.Run` | src/city.ts:122-125 | any sequence of ticks keeps every cell of the grid within capacity |
| `Simulation.RunMonotone` | src/city.ts:122-157 | over any sequence of ticks, each cell keeps its type, its stage never falls and rises by at most the number of ticks, and its residents and jobs never fall |
| `Simulation.RunSnoc` | src/city.ts:122-125 | a run extended by one tick is the shorter run followed by growing the extra tick's cell under the totals the shorter run left |
| `Simulation.RunStep` | src/city.ts:122-157 | each single tick of a run keeps every cell's type, raises its stage by at most one, and lowers neither its stage, its residents nor its jobs |
| `Simulation.RunUntouched` | src/city.ts:122-157 | a cell that no tick picks ends a run unchanged |
| `Simulation.FirstHouseGrows` | src/city.ts:129-142 | in an empty city a new house reaches stage 1 with 4 residents in one tick |
| `Simulation.FirstOfficeWaits` | src/city.ts:144-155 | in a city with no residents an office does not grow |
| `Simulation.City.constructor` | src/city.ts:60-71 | a new city has a 20 x 20 grid, each slot its own new default cell, and totals of 0 that equal the grid sums |
| `Simulation.City.GetCell` | src/city.ts:93-95 | for a row inside the grid: the slot's cell object when the column is inside the grid, else `undefined` |
| `Simulation.City.GetCellOrDefaultAsWritten` | src/city.ts:97-99 | as written: throws exactly when the row is outside the grid; a column outside the grid gives the default cell |
| `Simulation.City.RowAboveGridThrows` | src/city.ts:97-99 | the coordinate (-1, 0) makes the as-written lookup throw, while the corrected one gives the default cell |
| `Simulation.City.GetCellOrDefault` | src/city.ts:97-99 | corrected: the cell's value inside the grid and the default grass cell anywhere outside; agrees with the as-written lookup on every row inside the grid |
| `Simulation.City.Build` | src/city.ts:101-108 | success is `BuildCell`'s verdict on the old cell; only that cell changes, to `BuildCell`'s result; a failed build changes nothing |
| `Simulation.City.Destroy` | src/city.ts:110-120 | success is `DestroyCell`'s verdict; on success the cell is the default cell; no other cell changes; a failed destroy changes nothing |
| `Simulation.City.TickCell` | src/city.ts:128-157 | the picked cell becomes `TickedCell` of its old value under the current totals; no other cell and neither total changes |
| `Simulation.City.Tick` | src/city.ts:122-125 | one growth step at `(ri, rj)`, the one-tick case of `Run`, after which the totals equal the grid sums; when the totals were current before, neither total falls |
| `Simulation.City.UpdateStats` | src/city.ts:159-169 | afterwards `population` and `jobs` are the sums over the grid of residents and of jobs; the grid is unchanged |
| `Util.IndexOf` | src/util.ts:4 | -1 exactly when the value is absent; otherwise the index of its first occurrence |
| `Util.At` | src/util.ts:14 | an index read yields the element when the index is inside the array and `undefined` otherwise |
| `Util.SpliceOne` | src/util.ts:6 | `splice(k, 1)` removes the element at `k`, keeping the others in order (length one less, multiset less that element); it is a no-op past the end |
| `Util.RemoveReference` | src/util.ts:3-10 | returns true exactly when the value is in the array; then the first occurrence alone is removed; otherwise the array is unchanged |
| `Util.RemoveRandom` | src/util.ts:12-17 | on a non-empty array returns the element at `k` and leaves `old[..k] + old[k+1..]`; on an empty array returns `undefined` and changes nothing |
| `Util.PickRandom` | src/util.ts:19-21 | on a non-empty array returns `a[k]`, an element of the array, and changes nothing; on an empty array returns `undefined` |

## Left out

- `City.fromJson` / `toJson` (src/city.ts:73-91): they copy properties reflectively with `JSON.parse` and `JSON.stringify`, which have no typed structure to model.
- Renderers, DOM directives, audio and the HTTP server (`src/renderer*.ts`, `src/dom.ts`, `src/main.ts`, `server.rb`): canvas, WebGL, Angular, Howler and Sinatra calls outside the simulation.
- `Math.random` in `tick` and in the array helpers: modelled as parameters.
- `Simulation.Fudge`: the source computes `Math.ceil(10 + 0.01 * x)` in floating point. The model uses the exact integer ceiling `10 + ceil(x / 100)`. Where the float product rounds above an exact integer, the source's value may be one higher.
- Coordinates, stages and totals are integers; non-integral JavaScript numbers are not modelled. `Coords.Coord.ToString` does not model the exponent notation JavaScript uses for magnitudes of 10^21 and above.
- `Simulation.City.GetCell`, `Simulation.City.Build`, `Simulation.City.Destroy`, `Simulation.City.TickCell`: a row outside the grid makes the source throw a TypeError (and, for the last three, so does a column outside it). This is a precondition, not an error result; no caller in `src/` passes such a coordinate.
- `Simulation.City.GetCellOrDefault`: returns the value of the cell (or of `Cell.DEFAULT`), not the shared object itself, because no caller in `src/` writes through the returned reference.
- `Util.RemoveReference`: JavaScript's `indexOf` uses `===`, under which `NaN` is not equal to itself; Dafny's equality is modelled instead.
- `Util.JsArray`: other JavaScript array behaviour (holes, properties other than the elements) is not modelled.

## Findings

| source | as written | input that shows it | evidently intended | confidence | as-written member | corrected member |
|---|---|---|---|---|---|---|
| src/city.ts:97-99 | `this.grid[coord.i][coord.j] \|\| Cell.DEFAULT` falls back only for a column outside the grid; for a row outside it, `this.grid[coord.i]` is `undefined` and indexing it throws a TypeError | `getCellOrDefault(new Coord(-1, 0))` | every coordinate outside the grid yields the default cell | not executed; high, from the JavaScript semantics of indexing `undefined` | `Simulation.City.GetCellOrDefaultAsWritten` (with `Simulation.City.RowAboveGridThrows`) | `Simulation.City.GetCellOrDefault` |
