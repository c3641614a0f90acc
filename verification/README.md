# UAV obstacle avoidance: occupancy scoring and section selection

This project is a Dafny model of the obstacle-avoidance core of a stereo-vision
UAV. The core scores regions of a depth (or disparity) frame by their share of
unsafe pixels. It picks the most open region and turns that choice into a
flight direction. Three generations of the scanner are modelled.

- **The overlapping 17x17 grid** (`Obstacle_Avoidance/src/multipleOverlap.cpp`).
  - `Layout` models `partition`/`fillArray`: region centres laid out by midpoint bisection.
  - `Window` models `checkCols`/`checkRows`: the sliding boolean membership windows.
  - `Occupancy` models the one-pass `countPixels` with `updateCounters`, and `getPercentage`/`calcPercentages`.
  - `Selection` models `selectSection`, `clearPositions`, `closest` and `distanceCalc`.
  - `Command` models `getCenter` and the direction logic of `manuever`.
  - `Cycle` composes one control cycle.
- **The even 3x3 partition** (`Obstacle_Avoidance/smallEven.cpp`), in module `SmallEven`.
  - Tiles are cut at W/3 and W/3*2.
  - Percentages are real. NaN arises on empty tiles (0 / 0); the percentage type also carries the IEEE infinities, so `GetPercentage` covers its whole domain.
  - The selector seeds from the centre.
- **The disparity 3x3 partition** (`Obstacle_Avoidance/main.cpp`), in module `Disparity`.
  - Reads a 4-channel byte image with a stride of four bytes.
  - Truncates percentages to whole numbers.
  - Takes the centre tile first whenever it is below the threshold.

Shared pieces:
- `Depth`: depth readings and the unsafe-pixel predicate.
- `Motion`: signs of motion.
- `Thirds`: the 3x3 tiling and the `manuever` switch of both 3x3 scanners.

Each operation is checked against an independent brute-force definition.
- The scanned window is compared with half-open containment.
- The incremental counters are compared with a per-region count over the whole frame.
- The selectors are compared with a declarative selection law, proved unique.
- The tiles are compared with a tiling of the frame.

Floating point is replaced by exact arithmetic:
- 17x17 percentages share one denominator, so they compare as counts.
- Tile percentages compare by cross-multiplication.
- `sqrt` distances become squared integer distances, which order regions the same way.

Both scanners test `depth == NAN`, which never holds, so NaN pixels are not
counted; `Depth.Unsafe` therefore leaves `Invalid` out.

## Model

| member | source | states |
|---|---|---|
| Layout.Partition | Obstacle_Avoidance/src/multipleOverlap.cpp:232-241 | Both centre arrays have 17 entries. The end centres sit at HALF_WIDTH and WIDTH - HALF_WIDTH, and at HALF_HEIGHT and HEIGHT - HALF_HEIGHT. |
| Layout.FillArray | Obstacle_Avoidance/src/multipleOverlap.cpp:244-255 | For start < end the bisection terminates on the measure end - start. It never writes at or outside start and end. |
| Layout.FillOverwrites | Obstacle_Avoidance/src/multipleOverlap.cpp:244-255 | The filled stretch depends only on the two bracketing values, never on what the slots held before. |
| Layout.FillNondecreasing | Obstacle_Avoidance/src/multipleOverlap.cpp:244-255 | With arr[start] <= arr[end], the filled stretch is non-decreasing and every value lies between the two endpoints. |
| Layout.FillIncreasing | Obstacle_Avoidance/src/multipleOverlap.cpp:244-255 | If the endpoints are at least one unit apart per slot, the filled stretch is strictly increasing. |
| Layout.FillGapBound | Obstacle_Avoidance/src/multipleOverlap.cpp:244-255 | On a power-of-two span whose endpoints differ by at most g per slot, neighbouring filled values differ by at most g. |
| Layout.FillMidpoint | Obstacle_Avoidance/src/multipleOverlap.cpp:250-252 | The middle slot gets the C-truncated average of the two endpoints. |
| Layout.PartitionMidpoints | Obstacle_Avoidance/src/multipleOverlap.cpp:232-241 | The middle column and row of regions (index 8) are centred on pixel column 640 and pixel row 360. |
| Layout.Axis | Obstacle_Avoidance/src/multipleOverlap.cpp:232-241 | One axis of partition: one centre per slot, the first at half and the last at extent - half. |
| Layout.AxisIgnoresInitialContent | Obstacle_Avoidance/src/multipleOverlap.cpp:232-241 | The centres do not depend on the uninitialised contents of the arrays passed in. |
| Layout.AxisWellSpaced | Obstacle_Avoidance/src/multipleOverlap.cpp:232-255 | If the end centres leave at least one unit and at most one region width per gap, the axis is well spaced. Well spaced means: it starts at the half size, increases strictly, and neighbouring regions overlap or touch. |
| Layout.PartitionWellSpaced | Obstacle_Avoidance/src/multipleOverlap.cpp:232-241 | The column centres of the 17x17 layout are well spaced for HALF_WIDTH, and the row centres for HALF_HEIGHT. |
| Window.CheckWindow | Obstacle_Avoidance/src/multipleOverlap.cpp:315-331 | One step changes only the first set slot and the slot just after the first run. The first set slot stays set iff x < centre + half. The next slot becomes set iff centre - half <= x. |
| Window.SlidesDeterministic | Obstacle_Avoidance/src/multipleOverlap.cpp:315-331 | The step relation determines the new window uniquely. |
| Window.SlidesKeepsRun | Obstacle_Avoidance/src/multipleOverlap.cpp:334-350 | A window that is one run lo..hi-1 stays one run. lo advances when the leading region ends before x; hi advances when the next region starts at or before x. |
| Window.ActiveContiguous | Obstacle_Avoidance/src/multipleOverlap.cpp:353-379 | With strictly increasing centres, the regions containing a coordinate form one contiguous run. |
| Window.ContiguousFirstRun | Obstacle_Avoidance/src/multipleOverlap.cpp:353-379 | For a single-run window, the first run that updateCounters walks is exactly the set slots. |
| Window.ActiveStarts | Obstacle_Avoidance/src/multipleOverlap.cpp:281-300 | From the initial window, with only slot 0 set, the step at coordinate 0 gives the brute-force membership at 0. |
| Window.ActiveSlides | Obstacle_Avoidance/src/multipleOverlap.cpp:286-300 | For well-spaced centres, the step at x turns brute-force membership at x - 1 into brute-force membership at x. |
| Window.ScanMatchesBruteForce | Obstacle_Avoidance/src/multipleOverlap.cpp:281-300 | At every coordinate the scanned window equals half-open containment: slot k is set iff centre_k - half <= x < centre_k + half. |
| Depth.UnsafeInRectBound | Obstacle_Avoidance/smallEven.cpp:248-265 | A rectangle never holds more unsafe readings than pixels. |
| Occupancy.UpdateCounters | Obstacle_Avoidance/src/multipleOverlap.cpp:353-379 | Adds exactly one to each region whose row is in the first run of set rows and whose column is in the first run of set columns. Every other counter is unchanged. |
| Occupancy.PixelStep | Obstacle_Avoidance/src/multipleOverlap.cpp:302-307 | With windows equal to containment, one pixel's update turns each region's count of the earlier pixels into the count including this pixel. |
| Occupancy.ScanPixel | Obstacle_Avoidance/src/multipleOverlap.cpp:286-307 | Visiting pixel x steps the column window to exact containment at x and advances every region's counter to include that pixel exactly when it is unsafe and inside the region. |
| Occupancy.ScanRow | Obstacle_Avoidance/src/multipleOverlap.cpp:292-308 | One pixel row adds to every region's counter exactly that row's unsafe pixels inside the region. |
| Occupancy.CountPixels | Obstacle_Avoidance/src/multipleOverlap.cpp:264-312 | After the scan, every counter equals the number of unsafe pixels in its region's half-open rectangle, counted by brute force. |
| Occupancy.OccupancyIsUnsafeInRect | Obstacle_Avoidance/src/multipleOverlap.cpp:264-312 | For a region inside the frame, the scanner's per-region count equals the plain unsafe count of its half-open rectangle, the same count the even 3x3 scanner uses. |
| Occupancy.OccupancyBound | Obstacle_Avoidance/src/multipleOverlap.cpp:36 | On the layout, no region counts more than TOTAL_PIXELS = 4 * HALF_WIDTH * HALF_HEIGHT unsafe pixels, whatever the frame. |
| Occupancy.Percentage | Obstacle_Avoidance/src/multipleOverlap.cpp:258-261 | The share of a count between 0 and TOTAL_PIXELS lies in [0, 100]. |
| Occupancy.CalcPercentages | Obstacle_Avoidance/src/multipleOverlap.cpp:382-395 | One percentage per region, each the region's share; two regions' percentages order and tie exactly as their counts do. |
| Occupancy.ScanPercentagesBounded | Obstacle_Avoidance/src/multipleOverlap.cpp:258-261 | Every region's percentage lies in [0, 100]. |
| Occupancy.PercentageOrder | Obstacle_Avoidance/src/multipleOverlap.cpp:382-395 | Percentages order and equate exactly as the counts do, so the selector's comparisons are comparisons of counts. |
| Occupancy.PercentageThreshold | Obstacle_Avoidance/src/multipleOverlap.cpp:258-261 | A percentage is below a threshold iff 100 * count < threshold * TOTAL_PIXELS. |
| Selection.PendingOverflowIff | Obstacle_Avoidance/src/multipleOverlap.cpp:402-423 | The buffer as written outgrows its 289 slots exactly when all values are equal, and it then holds 290 entries. |
| Selection.PendingShape | Obstacle_Avoidance/src/multipleOverlap.cpp:411-424 | The buffer as written holds only regions of minimum value, in ascending order (repeats allowed), and every such region. |
| Selection.CandidatesShape | Obstacle_Avoidance/src/multipleOverlap.cpp:411-424 | The corrected buffer holds only regions of minimum value, in ascending order, and every such region. |
| Selection.BestUnique | Obstacle_Avoidance/src/multipleOverlap.cpp:400-466 | At most one region satisfies the selection law: global minimum value, then least distance to the centre cell, then lowest index. |
| Selection.Dist2 | Obstacle_Avoidance/src/multipleOverlap.cpp:459-466 | The squared distance from a region's cell to the centre cell (8, 8) is 0 exactly for region 144 and never exceeds 128. |
| Selection.ClearPositions | Obstacle_Avoidance/src/multipleOverlap.cpp:436-441 | Zeroes the first position slots, leaves the rest and resets the count to 0. |
| Selection.Closest | Obstacle_Avoidance/src/multipleOverlap.cpp:443-466 | Returns an entry of least squared distance to the centre cell, and the first entry at that distance. |
| Selection.ClosestIsBest | Obstacle_Avoidance/src/multipleOverlap.cpp:443-457 | In an ascending list of all the minimum regions, the first entry at least distance satisfies the selection law. |
| Selection.Visit | Obstacle_Avoidance/src/multipleOverlap.cpp:411-424 | One iteration: a strictly smaller value restarts the buffer with i, an equal value appends i, a larger one changes nothing. The running minimum follows. |
| Selection.VisitAsWritten | Obstacle_Avoidance/src/multipleOverlap.cpp:411-424 | On inputs that are not all equal, one iteration as written keeps the running minimum and the buffer equal to the as-written list of ties, within the 289 slots. |
| Selection.VisitCorrected | Obstacle_Avoidance/src/multipleOverlap.cpp:411-424 | One iteration of the corrected loop keeps the running minimum and the buffer equal to the ties of the minimum so far, each once, never more than the regions visited. |
| Selection.CollectAsWritten | Obstacle_Avoidance/src/multipleOverlap.cpp:402-424 | On inputs that are not all equal, the loop as written leaves the running minimum and the buffer as written. |
| Selection.Collect | Obstacle_Avoidance/src/multipleOverlap.cpp:405-424 | The corrected loop starts at region 1 after seeding region 0. It leaves the overall minimum and the regions of that value, each once, in ascending order. |
| Selection.Finish | Obstacle_Avoidance/src/multipleOverlap.cpp:431-433 | From a buffer of exactly the minimum regions, the result is -1 iff no value is below PER_THRESH, and otherwise the selection law's region. |
| Selection.SelectSectionAsWritten | Obstacle_Avoidance/src/multipleOverlap.cpp:400-433 | selectSection as written, for inputs that do not overflow. It returns -1 iff every value is at least 15; otherwise the region of global minimum value closest to the centre cell, lowest index on ties. |
| Selection.SelectSection | Obstacle_Avoidance/src/multipleOverlap.cpp:400-466 | The corrected selectSection gives the same law for every input. |
| Selection.OpenFrameOverflows | Obstacle_Avoidance/src/multipleOverlap.cpp:402-407 | On an open frame (every percentage 0) all values are equal, and the loop as written needs 290 buffer entries. |
| Selection.OpenFrameSelectsCentre | Obstacle_Avoidance/src/multipleOverlap.cpp:459-466 | On an open frame the selection law picks the centre region 144. |
| Command.GetCenter | Obstacle_Avoidance/src/multipleOverlap.cpp:469-486 | -1 gives (0, 0). Any other section gives the centre of the very region whose counter it indexes: column centre of section % 17, row centre of section / 17. |
| Command.CenterOfSection | Obstacle_Avoidance/src/multipleOverlap.cpp:469-486 | Every region's centre lies in [HALF_WIDTH, WIDTH - HALF_WIDTH] x [HALF_HEIGHT, HEIGHT - HALF_HEIGHT]. So the drawn rectangle stays inside the frame, and (0, 0) can only stand for -1. |
| Command.CenterInjective | Obstacle_Avoidance/src/multipleOverlap.cpp:472-485 | Different sections, -1 included, have different centres. |
| Command.Heading | Obstacle_Avoidance/src/multipleOverlap.cpp:512-579 | Every branch of the nine-way table flies with the lateral and vertical signs of the offset from the frame centre (640, 360), keeping the given pitch. |
| Command.TruncatedTangent | Obstacle_Avoidance/src/multipleOverlap.cpp:508 | The tangent as written is the floor of delta_h / delta_w: a whole number t >= 0 with t * delta_w <= delta_h < (t + 1) * delta_w. |
| Command.ManeuverAsWritten | Obstacle_Avoidance/src/multipleOverlap.cpp:498-580 | manuever as written, where its division is defined. It spins iff a centre coordinate is 0. Otherwise it flies with the lateral and vertical signs of the offset from (640, 360) and a non-negative, integer-truncated tangent. |
| Command.Maneuver | Obstacle_Avoidance/src/multipleOverlap.cpp:497-580 | Corrected manuever: spins iff a centre coordinate is 0. Otherwise it aims at the centre: signs of the offset, straight up or down in the centre column, and elsewhere the tangent delta_h / delta_w exactly (0, full lateral speed, on the centre row). |
| Command.AimsAtUnique | Obstacle_Avoidance/src/multipleOverlap.cpp:506-510 | At most one command aims at a pixel: the aiming law fixes the signs and the pitch, tangent included. |
| Command.AimedMotion | Obstacle_Avoidance/src/multipleOverlap.cpp:506-510 | An aimed command moves sideways iff the target is off the centre column, and up or down iff it is off the centre row. |
| Command.ManeuverAgreesOnSigns | Obstacle_Avoidance/src/multipleOverlap.cpp:512-579 | Where the code as written is defined, it makes the same spin/fly choice and the same signs as the corrected one. |
| Command.CentreColumnDividesByZero | Obstacle_Avoidance/src/multipleOverlap.cpp:506-508 | Every region of the centre column gets delta_w = 0, and none has a 0 coordinate, so the division as written is undefined for it. |
| Command.TopLeftLosesClimb | Obstacle_Avoidance/src/multipleOverlap.cpp:508-510 | Region 0 is centred at (314, 126). As written its command has no vertical component; the corrected command climbs. |
| Cycle.ControlCycle | Obstacle_Avoidance/src/multipleOverlap.cpp:141-148 | One frame through the corrected cycle (corrected selectSection and manuever). The result is -1 and a spin iff every region's unsafe share is at least 15%. Otherwise it is the selection law's region; the centre is that region's centre and the command aims at it. |
| Thirds.BandsPartition | Obstacle_Avoidance/smallEven.cpp:208-231 | For ordered cuts, each coordinate in [0, extent) lies in band k iff k is its band: the bands are disjoint and cover the axis. |
| Thirds.SectionsTile | Obstacle_Avoidance/main.cpp:174-197 | For any ordered boundaries, each pixel of the frame lies in exactly one of the nine sections. |
| Thirds.AreasSum | Obstacle_Avoidance/smallEven.cpp:216-242 | The nine totalPix values add up to W * H. |
| Thirds.EvenCuts | Obstacle_Avoidance/smallEven.cpp:208-210 | The cuts W / 3 and W / 3 * 2 are ordered within [0, W]. |
| Thirds.EvenCutsNonempty | Obstacle_Avoidance/smallEven.cpp:208-210 | With even cuts, every band is nonempty iff the extent is at least 3. |
| Thirds.AreasPositive | Obstacle_Avoidance/smallEven.cpp:216-237 | All nine tiles are nonempty iff every band of both axes is nonempty. |
| Thirds.ActionOf | Obstacle_Avoidance/smallEven.cpp:303-354 | Section s in 0..8 maps to the vertical sense of s / 3 - 1 and the lateral sense of s % 3 - 1. Every other value, -1 included, turns in place. |
| Thirds.ActionRoundTrip | Obstacle_Avoidance/main.cpp:264-309 | The switch is a bijection between the sections -1..8 and the actions. |
| SmallEven.LessOrder | Obstacle_Avoidance/smallEven.cpp:281-286 | IEEE `<` restricted to non-NaN percentages is a strict total order. |
| SmallEven.GetPercentage | Obstacle_Avoidance/smallEven.cpp:268-271 | The result is NaN iff it is 0 / 0, and lies in [0, 100] for a nonempty tile. |
| SmallEven.PercentageCompare | Obstacle_Avoidance/smallEven.cpp:282-286 | The percentages of nonempty tiles compare as their cross-multiplied counts. |
| SmallEven.PercentageThreshold | Obstacle_Avoidance/smallEven.cpp:288-289 | A nonempty tile is below 20% iff 100 * numAbove < 20 * totalPix. |
| SmallEven.CountPixels | Obstacle_Avoidance/smallEven.cpp:248-265 | totalPix is the tile's area and numAbove its number of unsafe readings, with 0 <= numAbove <= totalPix. |
| SmallEven.TileCountsSum | Obstacle_Avoidance/smallEven.cpp:216-242 | The nine numAbove counts add up to the frame's unsafe readings, so every pixel is counted exactly once. |
| SmallEven.TileShareDefined | Obstacle_Avoidance/smallEven.cpp:268-271 | A tile's share is NaN iff the tile is empty, and a number iff it is nonempty. |
| SmallEven.SectionValue | Obstacle_Avoidance/smallEven.cpp:218-240 | One pass of the partitionCalc loop: the value of section i is the share of its tile, cut at W/3 and W/3*2 with the last band ending at the frame edge. |
| SmallEven.PartitionCalc | Obstacle_Avoidance/smallEven.cpp:205-245 | The values are the tiles' shares, NaN exactly for the empty tiles. All are numbers iff W >= 3 and H >= 3. |
| SmallEven.CentreFirstUnique | Obstacle_Avoidance/smallEven.cpp:275-291 | At most one section satisfies the centre-first law. |
| SmallEven.SelectSection | Obstacle_Avoidance/smallEven.cpp:275-291 | A NaN centre gives -1. Otherwise -1 iff no value is below 20. Else it returns a least value below 20: the centre unless some value is strictly smaller, and then the lowest such section. |
| SmallEven.ControlCycle | Obstacle_Avoidance/smallEven.cpp:116-119 | A frame narrower or shorter than 3 turns in place. Otherwise the craft turns in place iff no tile is below 20%, and else moves toward its section. |
| SmallEven.NarrowCentre | Obstacle_Avoidance/smallEven.cpp:208-210 | With W < 3 or H < 3 the centre tile is empty. |
| Disparity.NearInRectBound | Obstacle_Avoidance/main.cpp:220-232 | A rectangle never holds more near pixels than pixels. |
| Disparity.ScanRow | Obstacle_Avoidance/main.cpp:223-231 | The four-byte stride visits exactly pixels startW..endW-1 of the row. It adds their number to totalPix and their near pixels to numAbove. |
| Disparity.CountPixels | Obstacle_Avoidance/main.cpp:214-233 | totalPix is the tile's area and numAbove its number of pixels whose first byte is at least 120, with 0 <= numAbove <= totalPix. |
| Disparity.TruncPercentage | Obstacle_Avoidance/main.cpp:236-239 | 100 * numAbove / totalPix truncated toward zero: the floor for non-negative counts and the ceiling for negative ones. It lies in [0, 100] when 0 <= numAbove <= totalPix. |
| Disparity.TruncThreshold | Obstacle_Avoidance/main.cpp:238 | Truncation does not move the threshold: the whole percentage is below 20 iff 100 * numAbove < 20 * totalPix. |
| Disparity.SectionValue | Obstacle_Avoidance/main.cpp:184-206 | One pass of the partitionCalc loop: section i's tile is nonempty and its value is the tile's truncated near share, in [0, 100]. |
| Disparity.PartitionCalc | Obstacle_Avoidance/main.cpp:171-211 | Every tile is nonempty, and each value is that tile's truncated near-share, in [0, 100]. |
| Disparity.CentreThenLowestUnique | Obstacle_Avoidance/main.cpp:243-261 | At most one section satisfies the centre-then-lowest law. |
| Disparity.SelectSection | Obstacle_Avoidance/main.cpp:243-261 | -1 iff every value is at least 20. Otherwise the centre if it is below 20, and if not, the lowest section holding the global minimum. |
| Disparity.CentreOverridesMinimum | Obstacle_Avoidance/main.cpp:246-249 | For all values, a centre below 20 is the law's one choice, whatever smaller values other tiles hold. |
| Disparity.ControlCycle | Obstacle_Avoidance/main.cpp:86-89 | A centre tile below 20% keeps the craft flying straight. It turns in place iff every tile is at or above 20%. |

## Left out

- Camera, display and console I/O: the `main` driver loops, `slMat2cvMat`, `printImageValues`, logging and `quit_handler`. The depth frame is a parameter and nothing is displayed.
- The autopilot side of `manuever`: offboard control, `usleep`, `set_velocity`/`set_yaw`/`set_yaw_rate` and `update_setpoint`. A `Command` records the choice: spin, or the signs and pitch tangent of the velocity.
- Command.Maneuver: the trigonometric magnitudes VELO cos(theta) and VELO sin(theta) are not computed. The pitch is kept as its tangent (or as vertical), because `atan`, `sin` and `cos` are floating point.
- Occupancy.Percentage: percentages are exact reals, not `float`. The 17x17 selector only compares percentages that share one denominator, so it sees the same order.
- SmallEven.GetPercentage: exact reals, with NaN and the infinities as datatype cases. Float rounding of the quotient is not modelled.
- Disparity.TruncPercentage: computed exactly and then truncated. A float quotient that rounds just below a whole number could truncate one lower. It requires totalPix > 0, because converting the NaN from 0 / 0 to `int` is undefined in C++.
- Disparity.PartitionCalc: the boundaries `cols / 3` and `(int) (cols * (2.0 / 3))` come from a `double` product, so they are parameters here. They are required to give nonempty bands, which keeps the conversion above defined.
- Selection.Closest: squared integer distances replace `sqrt` of them. Correctly rounded `sqrt` is monotone and separates the integers up to 128 that occur, so the comparisons agree.
- Layout.AxisWellSpaced: proved only for a power-of-two number of gaps. That covers the 16 gaps of NUM_RECT = 17 but not every NUM_RECT.
- Layout.FillArray: requires start < end. With start == end the source recurses forever, so NUM_RECT must be at least 2.
- Selection.SelectSectionAsWritten: requires that the values are not all equal, because on such inputs the source writes past its buffer (see Findings).
- Cycle.ControlCycle: composes the corrected selectSection and manuever. The cycle as written at lines 141-148 can overflow the selection buffer, divide by zero in the centre column and truncate the tangent (see Findings); those are stated on the as-written members, not on a composed cycle.
- Command.ManeuverAsWritten: requires delta_w != 0 whenever the craft flies, because the source divides by it (see Findings).
- `Depth.Unsafe`: readings are a datatype (a measured distance, invalid, too close, too far) instead of a raw float with sentinel values.
- `SmallEven.SelectSection` / `Disparity.SelectSection`: the 3x3 selectors compare with IEEE `<` on the modelled values. The disparity values are whole percentages, which a `float` holds exactly.

## Findings

| source | as written | input that shows it | evidently intended | confidence | as-written member | corrected member |
|---|---|---|---|---|---|---|
| Obstacle_Avoidance/src/multipleOverlap.cpp:402-423 | `positions[TOTAL_RECT]` is seeded with region 0, and the loop from i = 0 appends region 0 again, then every tie | an open frame: all 289 percentages 0.0, which needs 290 writes into 289 slots | the buffer holds each minimum region once (loop from region 1 after the seed) | not executed | Selection.SelectSectionAsWritten, Selection.PendingOverflowIff, Selection.OpenFrameOverflows | Selection.SelectSection, Selection.Collect, Selection.OpenFrameSelectsCentre |
| Obstacle_Avoidance/src/multipleOverlap.cpp:506-508 | `delta_h / delta_w` with `delta_w = abs(CENTER_WIDTH - centerW)` | section 144, the centre region and the corrected selector's pick on an open frame (Selection.OpenFrameSelectsCentre), centred at (640, 360): delta_w = 0 | centre-column regions fly straight up or down (or hover at the centre) | not executed | Command.ManeuverAsWritten, Command.CentreColumnDividesByZero | Command.Maneuver, Command.AimedMotion |
| Obstacle_Avoidance/src/multipleOverlap.cpp:508 | `atan(delta_h / delta_w)` divides two `int`s, so the tangent is truncated | section 0, centred at (314, 126): delta_w = 326 and delta_h = 234 give tangent 0, so VELO_Z = 0 although the region is above the centre | theta = atan of the exact ratio delta_h / delta_w | not executed | Command.ManeuverAsWritten, Command.TopLeftLosesClimb | Command.Maneuver, Command.AimedMotion |
