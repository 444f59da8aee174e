# ecs-toy: a verified model of the per-tick systems

The program is a toy entity-component system. A world holds one column per component kind: position, velocity, acceleration, alive flag, health and health change. Each column is a vector of optional values indexed by entity. Every tick, a thread pool runs a fixed list of systems over these columns. Each system is one sequential pass over up to three columns. The render system also redraws an 11 × 200 canvas of health statuses, and a display system publishes the number of living entities.

This project models those systems and proves what they guarantee:

- `components.dfy` (module `Components`) holds the constants, component types and machine arithmetic: Rust's `clamp`, the truncating `%`, `saturating_add_signed`, the health classification and the position-to-cell mapping.
- `systems.dfy` (module `Systems`) gives each system as a function of the columns it reads. The pairwise passes are recursive over the common prefix of two columns, as `zip` pairs them. Each function's contract states the system's effect entry by entry. Lemmas cover the canvas (last writer wins, Dead exactly when unpainted) and the alive count.
- `schedule.dfy` (module `Schedule`) treats the whole world as a value and a schedule as any sequence of system runs. Column lengths, monotonic death and the never-rising living count are proved for every schedule, so for every order in which the pool may serialise a tick and across any number of ticks. The value ranges are preserved by every schedule once they hold. Positions, accelerations and health changes hold them from the corrected initial world on (`Setup.StartStaysBounded`). Healths may start above MAX_HEALTH, and hold it after two submission-order ticks (`Setup.SettledAfterTwoTicks`). The end-of-tick properties (deaths settled, counter exact, canvas forgotten, toggles of period two) are proved for `TickRuns`, the submission order. `AliveCheckEarlyLeavesDeathUnsettled` shows another serialisation of the same eight systems that leaves a health-0 entity alive at the end of the tick, and `AliveCheckEarlyCountsLiving` shows that order still ends with an exact counter, because the display runs last.
- `setup.dfy` (module `Setup`) models how the world is built from the random draws, both as written and corrected (see Findings).
- `simulation.dfy` (module `Simulation`) is the imperative world. Class `World` has one `seq` field per column. Each system is a method under a `modifies` frame naming only the field it writes. The six column passes rewrite their column entry by entry in a `while` loop. The render method's loop fills a fresh `array2`, which then replaces the canvas wholesale. The display method has no loop: it sets the counter to the count. Each method is proved equal to the function in `Systems`. `Tick` runs the systems in submission order and is proved equal to `Schedule.RunAll` over `TickRuns`.

Randomness is an input. A toggle system takes a function from entity index to the draws made while visiting that entity. Building the world takes one `EntityDraw` record per entity.

The model follows the code where it departs from what one might expect of it:
- An alive entity with health 0 writes nothing to the canvas (the `_ => ()` arm of the match), so its cell keeps what an earlier entity wrote instead of showing Dead.
- Clamping applies only to the entries a pass rewrites. Positions and healths without a paired velocity or health change keep their values, in bounds or not. The initial healths go up to 99.
- The columns do not have equal lengths, because of the finding below. Every pass therefore handles any lengths.

## Model

| member | source | states |
|---|---|---|
| `Components.Clamp` | src/main.rs:43-44 | the result lies in [lo, hi] and is the point of [lo, hi] nearest to the input |
| `Components.TruncRem` | src/main.rs:164-166 | Rust's remainder takes the sign of the dividend, its magnitude is the dividend's magnitude mod m, and it lies strictly between -m and m |
| `Components.AxisOf` | src/main.rs:123-133 | each new acceleration axis is 1 exactly when the draw is 0 mod 4, -1 exactly when it is 1 mod 4, and 0 exactly when it is 2 or 3 mod 4 |
| `Components.AccelerationOf` | src/main.rs:123-135 | both components of a new acceleration lie in {-1, 0, 1}; the x component comes from the left-right draw and the y component from the up-down draw, each 1 for a draw of 0 mod 4 and -1 for 1 mod 4 |
| `Components.HealthDeltaOf` | src/main.rs:163-167 | a new health change lies in {-1, 0, 1}, is 0 exactly when the drawn isize is even, and otherwise is healing (1) exactly when the kept-sign flag agrees with the draw being positive, damage (-1) in the other cases |
| `Components.SaturatingAddSigned` | src/main.rs:92 | the signed sum when it fits in usize, otherwise 0 or usize::MAX, whichever end it overshoots |
| `Components.CellOf` | src/main.rs:72-73 | every cell a position maps to lies inside the HEIGHT × WIDTH canvas, and an in-bounds position maps to its own coordinates shifted by (-MIN_X, -MIN_Y) |
| `Components.CellOfClamps` | src/main.rs:72-73 | a position is drawn where its clamped position is: an out-of-bounds one at the edge cell nearest to it, with the cell given by the clamped coordinates shifted by (-MIN_X, -MIN_Y) |
| `Components.Classify` | src/main.rs:75-80 | health 0 is Dead, 1 to 3 Low, 4 to 6 Medium, 7 and above High, each exactly |
| `Components.ClassifyMonotone` | src/main.rs:75-80 | a higher health never gets a lower status, and any positive health gets a status other than Dead |
| `Components.CellOfInjective` | src/main.rs:72-73 | two in-bounds positions share a canvas cell exactly when they are equal |
| `Systems.ZipUpdate` | src/main.rs:41 | a zip-and-filter pass keeps the column length and, at each index below the shorter length, rewrites the entry only when both entries are present; entries past that length are kept |
| `Systems.PositionStep` | src/main.rs:42-45 | a moved position lies in the bounds, is the in-bounds point nearest to the unclamped sum on each axis, and equals the sum when that is in bounds |
| `Systems.VelocityStep` | src/main.rs:55-58 | the new velocity differs from the old by exactly the acceleration, on both axes |
| `Systems.HealthStep` | src/main.rs:92 | the saturating add followed by the clamp is the sum clamped to [0, MAX_HEALTH]; the usize saturation never matters |
| `Systems.PositionUpdated` | src/main.rs:36-47 | where position and velocity are both present, the new position is the clamped componentwise sum and lies in [-100, 99] × [-5, 5]; every other entry is unchanged |
| `Systems.VelocityUpdated` | src/main.rs:50-61 | where velocity and acceleration are both present, the new velocity is the unclamped sum; every other entry is unchanged |
| `Systems.HealthUpdated` | src/main.rs:86-94 | where health and change are both present, the new health is clamp(h + d, 0, MAX_HEALTH) and so lies in [0, 10]; every other entry is unchanged |
| `Systems.PositionUpdateExample` | src/main.rs:41-45 | with positions (0, 0), (1, 1), (-1, -1) and one absent, and only the first entity having velocity (1, 0), only the first moves, to (1, 0) |
| `Systems.AliveEntry` | src/main.rs:148-150 | an alive entry keeps its presence, is true afterwards exactly when it was true and its health is present and non-zero, and a present flag with absent or zero health becomes false |
| `Systems.AliveUpdated` | src/main.rs:142-152 | a present flag whose paired health is absent or 0 becomes false and is otherwise kept; absent flags stay absent; no flag becomes true |
| `Systems.AliveCheckExample` | src/main.rs:147-150 | a living entity of health 0 is marked dead by one alive check |
| `Systems.Toggled` | src/main.rs:119-121 | a toggle pass keeps the length, clears every present entry and fills every absent entry i with the value drawn for i |
| `Systems.AccelerationToggled` | src/main.rs:115-139 | every acceleration flips presence, and each new one has both components in {-1, 0, 1} |
| `Systems.HealthChangesToggled` | src/main.rs:155-171 | every health change flips presence, and each new one lies in {-1, 0, 1} |
| `Systems.ToggleTwice` | src/main.rs:119-121 | two toggle passes restore the presence pattern; what was present returns with the second pass's draw |
| `Systems.RenderLen` | src/main.rs:71 | the render pass visits exactly the common prefix of the position, alive and health columns |
| `Systems.PaintsInsideCanvas` | src/main.rs:72-73 | no write of the render pass falls outside the canvas |
| `Systems.CellDeadIffUnpainted` | src/main.rs:68 | a cell of the new canvas is Dead exactly when no visible entity with health of at least 1 maps to it |
| `Systems.CellHoldsLastPainter` | src/main.rs:71-81 | a written cell holds the classification of the last visible entity with health of at least 1 mapped to it; later health-0 entities leave it unchanged |
| `Systems.CellAfter` | src/main.rs:68-81 | after the first n entities, a cell that is not Dead holds the classification of one of those entities that writes it |
| `Systems.RenderedCanvas` | src/main.rs:68 | the new canvas has HEIGHT rows of WIDTH cells |
| `Systems.CellIgnoresUndrawn` | src/main.rs:71 | an entity whose alive flag is not present and true has no influence on any cell: changing its position, its health, and its flag to any other value that is not present and true, leaves every cell unchanged |
| `Systems.CountAlive` | src/main.rs:178 | the number of living entities is at most the length of the alive column |
| `Systems.CountAliveIsCardinality` | src/main.rs:178 | the count equals the number of indices whose alive flag is present and true |
| `Systems.CountAliveMonotone` | src/main.rs:178 | a column whose true flags are all true in another column of the same length counts no more than that column |
| `Systems.AliveCheckNeverRaisesCount` | src/main.rs:147-150 | the alive check never raises the number of living entities |
| `Schedule.Run` | src/main.rs:266-276 | every system keeps the length of every column, keeps every false flag false and makes no flag true |
| `Schedule.RunAll` | src/main.rs:290-296 | running any sequence of systems keeps the length of every column |
| `Schedule.TickRuns` | src/main.rs:266-276 | a tick runs eight systems, each once, in the order position, velocity, render, health, acceleration, alive check, health changes, display; the two toggles carry the tick's own acceleration and health-change draws |
| `Schedule.TickOfIsRunAll` | src/main.rs:290-296 | one tick in submission order is the eight state-changing systems run one after the other |
| `Schedule.NoResurrection` | src/main.rs:142-152 | under any schedule of systems, over any number of ticks, column lengths stay fixed, a false alive flag stays false, and a flag that ends true was true at the start |
| `Schedule.LivingNeverRises` | src/main.rs:174-180 | no schedule raises the number of living entities |
| `Schedule.RunKeepsBounded` | src/main.rs:36-171 | each system keeps present positions in bounds and accelerations and health changes in {-1, 0, 1} |
| `Schedule.RunAllKeepsBounded` | src/main.rs:290-296 | once positions, accelerations and health changes are in range, every schedule keeps them there |
| `Schedule.RunKeepsSettled` | src/main.rs:36-171 | each system keeps present positions in bounds, healths at most MAX_HEALTH, and accelerations and health changes in {-1, 0, 1} |
| `Schedule.RunAllKeepsSettled` | src/main.rs:266-276 | once every present value is in range, every schedule keeps it there |
| `Schedule.FromAliveCheckEffect` | src/main.rs:272-275 | the last three systems of a tick leave healths unchanged, and only the alive check changes the alive flags |
| `Schedule.TickSettlesDeaths` | src/main.rs:147-150 | at the end of a submission-order tick, every present alive flag paired with an absent or zero health is false |
| `Schedule.TickCountsLiving` | src/main.rs:178-179 | at the end of a submission-order tick, the counter equals the number of entities whose flag is present and true |
| `Schedule.TickForgetsCanvas` | src/main.rs:82 | the world after a tick does not depend on the canvas before it |
| `Schedule.RunKeepsAlivesAndHealths` | src/main.rs:142-152 | only the alive check writes the alive flags and only the health update writes the healths |
| `Schedule.BeforeAliveCheckHealths` | src/main.rs:86-94 | up to the alive check of a submission-order tick, the healths are those the health update computes from the healths and changes at the start of the tick |
| `Schedule.TickHealths` | src/main.rs:86-94 | over one submission-order tick, the healths change by the health update alone |
| `Schedule.TickTogglesOnly` | src/main.rs:115-139 | over one submission-order tick, accelerations change only by the acceleration toggle and health changes only by the health-change toggle |
| `Schedule.AccelerationPeriodTwo` | src/main.rs:119-137 | over two whole ticks, an acceleration present at tick N is present at tick N + 2 with the draw of tick N + 1, and one absent is absent again |
| `Schedule.HealthChangePeriodTwo` | src/main.rs:159-168 | over two whole ticks, a health change present at tick N is present at tick N + 2 with the draw of tick N + 1, and one absent is absent again |
| `Schedule.AliveCheckEarlyRuns` | src/main.rs:266-276 | the same eight systems, each once, with the alive check run before the health update; with three workers the locks allow this when the health update's worker is delayed before it takes its lock; the two toggles carry the tick's own draws |
| `Schedule.AliveCheckEarlySteps` | src/main.rs:290-296 | running that order is running its eight systems one after the other |
| `Schedule.AliveCheckEarlyFirstSteps` | src/main.rs:142-152 | up to the alive check, an entity of health 1 and change -1 keeps its flag, health and change |
| `Schedule.AliveCheckEarlyLastSteps` | src/main.rs:86-94 | the health update then drops that entity to health 0 while its flag stays true, and the display counts it |
| `Schedule.AliveCheckEarlyLeavesDeathUnsettled` | src/main.rs:290-296 | run in that order, an entity of health 1 and change -1 ends the tick with health 0 but still alive and counted, so deaths are settled only in the submission order |
| `Schedule.DisplayCountsLiving` | src/main.rs:174-180 | after a display step, in any world, the counter equals the number of entities whose flag is present and true |
| `Schedule.AliveCheckEarlyCountsLiving` | src/main.rs:266-276 | in the early-alive-check order the display still runs last, so the counter is exact at the end of that tick for every world |
| `Setup.FirstPosition` | src/main.rs:217-221 | an entity's first position draw is absent or inside the bounds |
| `Setup.PositionsAsWritten` | src/main.rs:215-222 | as written, the position column gets two slots per entity |
| `Setup.PositionsAsWrittenStep` | src/main.rs:217-222 | setting up one more entity appends its position and its stray slot to the column |
| `Setup.InitialColumns` | src/main.rs:206-241 | the corrected initial world has one slot per entity in every column, every alive flag present, no health change, an all-Dead HEIGHT × WIDTH canvas and a count of 0 |
| `Setup.FirstHealth` | src/main.rs:226 | an initial health is absent or below 100 |
| `Setup.PositionsAsWrittenLayout` | src/main.rs:215-222 | as written, the position column has 2n slots: entity k's position at 2k and a stray draw at 2k + 1 |
| `Setup.PositionsAsWrittenMisaligned` | src/main.rs:217-222 | a concrete two-entity world where the slot read as entity 1's position is the stray draw, not entity 1's position, and lies out of bounds |
| `Setup.InitialColumnsAligned` | src/main.rs:206-241 | in the corrected setup every column has one slot per entity, slot k holds entity k's position, positions, accelerations and health changes start in range, and a health drawn as 50 starts above MAX_HEALTH |
| `Setup.StartStaysBounded` | src/main.rs:206-241 | from the corrected initial world, under every schedule, every present position stays in bounds and every acceleration and health change in {-1, 0, 1} |
| `Setup.FirstTickGivesChanges` | src/main.rs:155-171 | after the first tick every entity has a health change |
| `Setup.PairedHealthsCapped` | src/main.rs:86-94 | a tick from a world where every health has a paired change leaves every present health at most MAX_HEALTH |
| `Setup.SettledAfterTwoTicks` | src/main.rs:86-94 | two submission-order ticks from the corrected initial world bring every present value into range, healths included, and every schedule after them keeps it so |
| `Simulation.SetupLoop` | src/main.rs:215-228 | the setup loop pushes one slot per entity onto every column, with each slot the entity's own draw; with the stray push it leaves the position column equal to `PositionsAsWritten` |
| `Simulation.World.New` | src/main.rs:206-241 | builds exactly the corrected initial world, with an all-Dead canvas of HEIGHT × WIDTH cells and a count of 0 |
| `Simulation.World.NewAsWritten` | src/main.rs:206-241 | builds exactly the world the setup code produces: the corrected world except that the position column is `PositionsAsWritten` |
| `Simulation.PaintEntity` | src/main.rs:71-81 | one step of the render loop turns a grid holding `CellAfter` for i entities into one holding it for i + 1 |
| `Simulation.World.PositionUpdateSystem` | src/main.rs:36-47 | the in-place pass leaves the position column equal to `PositionUpdated` and changes nothing else |
| `Simulation.World.VelocityUpdateSystem` | src/main.rs:50-61 | the in-place pass leaves the velocity column equal to `VelocityUpdated` and changes nothing else |
| `Simulation.World.ComponentRenderSystem` | src/main.rs:64-83 | a fresh canvas replaces the old one, and each of its cells holds the last-writer status `CellAfter` |
| `Simulation.World.HealthUpdateSystem` | src/main.rs:86-94 | the in-place pass leaves the health column equal to `HealthUpdated` and changes nothing else |
| `Simulation.World.AccelerationUpdateSystem` | src/main.rs:115-139 | the in-place pass leaves the acceleration column equal to `AccelerationToggled` for the given draws |
| `Simulation.World.AliveSystem` | src/main.rs:142-152 | the in-place pass leaves the alive column equal to `AliveUpdated` and changes nothing else |
| `Simulation.World.HealthChangesSystem` | src/main.rs:155-171 | the in-place pass leaves the health-change column equal to `HealthChangesToggled` for the given draws |
| `Simulation.World.AliveEntitiesDisplaySystem` | src/main.rs:174-180 | the counter is set to the number of living entities and nothing else changes |
| `Simulation.World.Tick` | src/main.rs:266-296 | one tick in submission order leaves the world equal to `Schedule.RunAll` over `TickRuns` |

## Left out

- The thread pool, the reference-counted handle, the read-write locks and the tick barrier (src/main.rs:264, 290-296). Each system is modelled as having exclusive access to its columns. `NoResurrection`, `LivingNeverRises` and `RunAllKeepsSettled` hold for every order of system runs, so also for whichever serialisation the locks produce. The end-of-tick lemmas are proved for the submission order only, and another order is shown to break `TickSettlesDeaths`.
- Simulation.World.New: builds the corrected layout, one position slot per entity; the layout the code builds, two position slots per entity, is `Simulation.World.NewAsWritten` and `Setup.PositionsAsWritten`.
- The Ctrl-C handler and the running flag (src/main.rs:281-288). This is asynchronous signal handling. Any number of ticks is covered by `Schedule.RunAll`.
- Tick timing with the system clock, and all `println!` output (src/main.rs:279, 289, 297-299). These are I/O and the clock.
- `canvas_render_system` (src/main.rs:97-112). It only prints the canvas through the `colored` crate, so `TickRuns` leaves it out.
- Command-line parsing with `clap` (src/main.rs:244-258). This is an external library. The entity count becomes the length of the draws given to `World.New`.
- The random generator itself. Every `random()` result is an input: `AccelDraw`, `HealthDraw` and `EntityDraw`. The exact order in which the generator is consumed across entities is not modelled.
- The final dump of living entities (src/main.rs:302-312). It is output only.
- Machine-integer overflow of the `isize` additions in the position and velocity updates. Rust panics on these in debug builds and wraps in release builds. Positions and velocities are unbounded integers. Healths and health changes use the 64-bit ranges, and `saturating_add_signed` is modelled exactly.
- The `entities` id list of the world (src/main.rs:185, 216). It only records 0..n-1 and is read only for output.

## Findings

| source | as written | input that shows it | evidently intended | confidence | as-written member | corrected member |
|---|---|---|---|---|---|---|
| src/main.rs:217-222 | each entity pushes two slots onto the position column: its clamped position, then an unclamped random `Option`. The column gets 2n slots, entity k's position sits at index 2k, and every system reads slot i as entity i's position | two entities, the first with stray slot `Some((1000, 0))`: slot 1, read as entity 1's position, is `(1000, 0)`, which is out of bounds and not entity 1's drawn position `(3, 1)` | one slot per entity, so slot k is entity k's clamped position and all columns have length n | high, not executed | `Setup.PositionsAsWrittenMisaligned` | `Setup.InitialColumnsAligned` |
