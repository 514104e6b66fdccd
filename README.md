# item_tracking, modelled in Dafny

The model covers the two files that make up item_tracking:

- `item_tracking/item.py`: components, items and their merge.
- `item_tracking/tracker.py`: the tracker that matches each cycle's observations to the items tracked so far.

A **component** is a named part with a partially known pose, a visibility status (ON_SIGHT / UNKNOWN), three weights and a speed. It is a value (`Components.Component`). Its setters return the updated component.

An **item** is a class (`Items.Item`) whose fields are those of the source:

- the pose, the weights, the speed and the status;
- the handler record (identity, last-seen time, lifecycle state ADD / UPDATE / DELETE);
- the component dictionary, kept as a map plus its insertion order, because Python iterates a dictionary in that order.

Every method of `Item` updates its fields in place. Each is proved to leave exactly the snapshot (`ItemValue`) that a pure function of the old snapshot describes: `Upserted`, `Centered`, `WithSpeed`, `Distance`, `Merged`. The lemmas beside those functions state what the source promises. For example:

- `addComponent` overwrites only the supplied axes;
- the barycenter ignores iteration order and is idempotent;
- the distance is NaN when no part is on sight and fully positioned in both items, and a number when one such part has a positive weight and every weight is non-negative;
- the merge keeps every part and carries lost parts over as UNKNOWN.

The **tracker** is a class (`Tracking.Tracker`) holding:

- the queued observations, as objects;
- the tracked items, as objects;
- the last distance matrix;
- the identity counter and the three parameters.

Each step of `updateTracking` is a method with its loop:

- `barycenters` and `distanceCompute`;
- the greedy `while` loop, which overwrites rows and columns of the matrix with NaN;
- `addTracks`, `updateTracks` and `deleteTracks`.

Each method is proved against the value-level description of a cycle in module `Lifecycle` (`Decide`, `Apply`, `Cycle`). About that description the model proves the following:

- the matching is injective, below the threshold, in non-decreasing order, maximal, and picks the first row-major minimum;
- the unmatched indices partition both sides;
- identities are fresh, in the order of `toAdd`, and never shared;
- matched tracks follow the transition table;
- unmatched tracks are retired or dropped as the source decides.

`UpdateTracking` ends in the tracker invariant:

- distinct objects;
- every tracked item carries a distinct identity between 1 and the counter.

Decisions where the source cannot be followed literally:

- **The pick of the `while` loop is the first row-major minimum among the entries that are not NaN.** `np.argmin` itself returns the first NaN; see Findings.
- **The merge loop of `__lt__` iterates (name, component) pairs.** The source iterates `other.components`, which yields the dictionary's keys, and then reads `.name` from them.
- **The merge copies the predecessor's identity onto the observation.** Neither `__lt__` nor `updateTracks` does this; see Findings.
- **The UPDATE branch of `updateTracks` also sets the state to UPDATE.** See Findings.
- **After a cycle, the tracked list is this cycle's observations followed by the requeued tracks, and the queue is emptied.** `self.trackedItems = self.newItems` (tracker.py:41) makes the two names share one list, which the next cycle would keep appending to.
- **`setBarycenter` skips a component that lacks x, y or z.** The source may add x before its `TypeError` fires.
- **`__eq__` skips a shared part whose position is incomplete, and `__lt__` gives such a part no speed.** `dist` in the source raises `TypeError` on it (item.py:68-70).
- **The threshold is strict (`mini < thresholdDist`).** A displacement exactly equal to the threshold is never matched (`Matching.ThresholdIsStrict`). So an example in which an item moves by 1.0 under threshold 1.0 and keeps its identity does not hold for this code.

## Model

| member | source | states |
|---|---|---|
| Optional.Override | item_tracking/item.py:42-56 | a supplied axis replaces the current value, an absent one keeps it |
| Optional.GetOr | item_tracking/tracker.py:22-26 | `kwargs.get(key, default)`: the supplied value, or the current one when none is supplied |
| Components.Fresh | item_tracking/item.py:26-40 | a new component has no pose, unit weights, no speed and status ON_SIGHT |
| Components.Component.UpdatePose | item_tracking/item.py:42-48 | exactly the supplied position axes are overwritten; every other field is unchanged |
| Components.Component.UpdateOrientation | item_tracking/item.py:50-56 | exactly the supplied angles are overwritten; every other field is unchanged |
| Components.Component.FullUpdate | item_tracking/item.py:58-62 | the six axes read back as the supplied values, or the old ones where none is supplied; nothing else changes |
| Components.FullUpdateIdempotent | item_tracking/item.py:58-62 | applying the same arguments twice leaves the state of applying them once |
| Components.EmptyUpdateIsIdentity | item_tracking/item.py:58-62 | an update supplying no axis leaves the component unchanged |
| Components.Component.SquaredDistance | item_tracking/item.py:67-71 | the quantity under the square root of `dist` is never negative |
| Components.Component.FullGet | item_tracking/item.py:64-65 | the six axes, with x, y and z all set exactly when the component is positioned |
| Components.FullGetRoundTrip | item_tracking/item.py:58-65 | feeding `fullGet` back into `fullUpdate` changes nothing |
| Components.Component.Dist | item_tracking/item.py:67-71 | the distance between two positioned components is non-negative whenever the square root maps non-negative numbers to non-negative numbers |
| Components.DistSymmetric | item_tracking/item.py:67-71 | `a.dist(b) == b.dist(a)` |
| Items.Blank | item_tracking/item.py:79-85 | a new item has no parts, status ON_SIGHT, and a handler with no identity, in state ADD, seen at creation time |
| Items.Item.constructor | item_tracking/item.py:79-85 | the new object holds the snapshot of `Blank` and a well-formed dictionary |
| Items.Item.SetID | item_tracking/item.py:87-88 | only the handler's identity changes, to the given one |
| Items.Item.SetState | item_tracking/item.py:93-94 | only the handler's state changes, to the given one |
| Items.Item.GetID | item_tracking/item.py:90-91 | the handler's identity in the object's snapshot |
| Items.Item.GetState | item_tracking/item.py:96-97 | the handler's state in the object's snapshot |
| Items.Item.GetTime | item_tracking/item.py:102-103 | the handler's last-seen time in the object's snapshot |
| Items.Item.SetTime | item_tracking/item.py:99-100 | only the handler's last-seen time changes, to the given one |
| Items.Upserted | item_tracking/item.py:105-110 | the name becomes a key and no key is removed; every other part is untouched; an existing part gets the partial update, a new one is a fresh component with the partial update; only the dictionary changes and it stays well formed |
| Items.UpsertKeepsHistory | item_tracking/item.py:105-110 | an existing part keeps its name, status, weights and speed and changes only its supplied axes |
| Items.Item.AddComponent | item_tracking/item.py:105-110 | the item's new snapshot is `Upserted` of the old one |
| Items.Centered | item_tracking/item.py:112-132 | only x, y, z and `baryWeight` change, and a non-empty item ends with all three coordinates set |
| Items.BarycenterWithoutVisibleParts | item_tracking/item.py:114-128 | when no part is on sight and positioned, the weight is 0 and x, y, z stay 0 |
| Items.BarycenterIgnoresOrder | item_tracking/item.py:116-122 | the barycenter does not depend on the order in which the parts are visited |
| Items.BarycenterIdempotent | item_tracking/item.py:112-128 | a second call changes nothing, since the accumulators are reset first |
| Items.Item.BarySums | item_tracking/item.py:116-124 | the loop yields the sums of `baryWeight` and of x, y, z over the on-sight parts with a full position |
| Items.Item.SetBarycenter | item_tracking/item.py:112-132 | the item's new snapshot is `Centered` of the old one |
| Items.WithSpeed | item_tracking/item.py:154-162 | `speedWeight` is the summed `speedWeight` of the on-sight parts with a speed; speed times that weight is the sum of their speeds; nothing else changes |
| Items.Item.SetSpeed | item_tracking/item.py:154-166 | the item's new snapshot is `WithSpeed` of the old one |
| Items.Distance | item_tracking/item.py:173-186 | NaN exactly when `self`'s summed `distWeight` over the parts on sight and fully positioned in both is zero; otherwise the result times that weight is the summed `dist` over those parts |
| Items.DistanceWithoutSharedParts | item_tracking/item.py:176-186 | two items with no part on sight and fully positioned in both are at distance NaN |
| Items.DistanceWithSharedPart | item_tracking/item.py:176-184 | one part on sight and fully positioned in both, with a positive weight, makes the distance a number when every weight of `self` is non-negative |
| Items.Item.DistanceTo | item_tracking/item.py:168-186 | returns `Distance` of the two snapshots and overwrites only `distWeight`, with the summed weight |
| Items.MergedSpeed | item_tracking/item.py:197-203 | no speed when the predecessor's copy is not on sight; otherwise speed times elapsed time is the distance travelled, defined exactly when both positions are set and time has elapsed |
| Items.MergeOver | item_tracking/item.py:195-206 | the merge loop changes only the dictionary |
| Items.MergeOverKeys | item_tracking/item.py:195-206 | the loop keeps the dictionary well formed and its keys become the old ones plus the predecessor's |
| Items.MergeOverAt | item_tracking/item.py:195-206 | per key: a predecessor-only part is copied in as UNKNOWN, a shared part gets its merged speed, any other part is untouched |
| Items.Merged | item_tracking/item.py:190-206 | the handler becomes the observation's own with the predecessor's identity; only parts, order and handler change |
| Items.MergedWellFormed | item_tracking/item.py:190-206 | the merge leaves a well-formed dictionary |
| Items.MergeKeepsEveryPart | item_tracking/item.py:195-206 | the parts after the merge are exactly those of the observation and of its predecessor |
| Items.MergedPart | item_tracking/item.py:197-206 | a lost part is carried over as UNKNOWN, a new-only part is untouched, and a shared part changes only its speed |
| Items.MergedAsWritten | item_tracking/item.py:190-206 | the merge as written: the same parts as `Merged`, with the handler left as it was |
| Items.Item.MergeFrom | item_tracking/item.py:190-206 | `self < other`: the new snapshot is `Merged` of the two old snapshots |
| Items.Item.MergeInto | item_tracking/item.py:209-213 | `self > other`: `other`'s new snapshot is `Merged` of `other` and `self` |
| Matching.RowArgMinIsFirstMin | item_tracking/tracker.py:64 | within a row, the pick is a smallest non-NaN entry and every earlier non-NaN entry is strictly larger |
| Matching.RowArgMin | item_tracking/tracker.py:64 | the corrected pick within a row: none exactly when every entry is NaN, otherwise an in-range entry that is not NaN |
| Matching.ArgMin | item_tracking/tracker.py:64 | the corrected pick: none exactly when every entry is NaN, otherwise a position inside the matrix whose entry is not NaN |
| Matching.ArgMinFrom | item_tracking/tracker.py:64 | no position exactly when every entry is NaN; otherwise a non-NaN position inside the matrix |
| Matching.ArgMinFromIsFirstMin | item_tracking/tracker.py:64 | the pick is a smallest non-NaN entry, and every non-NaN entry before it in row-major order is strictly larger |
| Matching.NanMin | item_tracking/tracker.py:62 | `np.nanmin` is NaN exactly when every entry is NaN |
| Matching.Masked | item_tracking/tracker.py:69-72 | masking keeps the matrix's shape |
| Matching.MaskedAt | item_tracking/tracker.py:69-72 | an entry is NaN on a used row or column and the original elsewhere |
| Matching.NanRow | item_tracking/tracker.py:69-70 | overwriting a row keeps the matrix's shape |
| Matching.NanColumn | item_tracking/tracker.py:71-72 | overwriting a column keeps the matrix's shape |
| Matching.MaskedExtend | item_tracking/tracker.py:66-72 | overwriting the accepted pair's row and column is masking by the longer list of pairs |
| Matching.GreedyFrom | item_tracking/tracker.py:63-73 | the loop from any injective prefix extends it injectively; it accepts the current pick exactly when the smallest remaining entry is below the threshold, and otherwise stops |
| Matching.GreedyStep | item_tracking/tracker.py:64-72 | a pick below the threshold reuses no row and no column, and pairs remain to be taken |
| Matching.GreedyAccept | item_tracking/tracker.py:63-73 | one turn: the pick lies inside the matrix, the loop goes on from the longer list, and the masked matrix is the old one with the pick's row and column overwritten |
| Matching.GreedyStops | item_tracking/tracker.py:63 | with the smallest remaining entry NaN or not below the threshold, the loop accepts nothing more |
| Matching.Greedy | item_tracking/tracker.py:59-73 | `toUpdate` uses no observation and no track twice; with either side empty nothing is matched |
| Matching.GreedySteps | item_tracking/tracker.py:62-73 | every accepted pair is the pick of the matrix masked by the pairs before it, and the loop ends stopped |
| Matching.GreedyBelowThreshold | item_tracking/tracker.py:63-66 | every accepted pair's original distance is a number below the threshold |
| Matching.GreedyNonDecreasing | item_tracking/tracker.py:62-73 | pairs are accepted in non-decreasing order of distance |
| Matching.GreedyPicksFirstMinimum | item_tracking/tracker.py:62-65 | each pair is a smallest entry among free rows and columns, and every free entry before it in row-major order is strictly larger |
| Matching.GreedyMaximal | item_tracking/tracker.py:63-73 | when the loop stops, no free row and free column meet in an entry below the threshold |
| Matching.GreedyBound | item_tracking/tracker.py:63-73 | the loop runs at most min(lSize, cSize) times |
| Matching.ThresholdIsStrict | item_tracking/tracker.py:63 | a distance equal to the threshold is not matched |
| Matching.Unmatched | item_tracking/tracker.py:76-77 | the list holds exactly the indices below n that were not matched, in increasing order |
| Matching.UnmatchedCount | item_tracking/tracker.py:76-77 | the unmatched indices and the matched ones below n number n together |
| Matching.UnmatchedPartition | item_tracking/tracker.py:76-77 | each index below n is either matched or listed, never both, and the two lists have n entries together |
| Matching.RowFirstNaN | item_tracking/tracker.py:64 | the first NaN of a row: every entry before it is a number, and there is none exactly when the row has no NaN |
| Matching.FirstNaNFrom | item_tracking/tracker.py:64 | the first NaN in row-major order: every entry before it is a number, and there is none exactly when the matrix has no NaN |
| Matching.NumpyArgMin | item_tracking/tracker.py:64 | `np.argmin` as numpy computes it: whenever the matrix holds a NaN, the first NaN in row-major order; on a matrix with no NaN, the corrected pick `ArgMin`, the first minimum |
| Matching.MaskAsWritten | item_tracking/tracker.py:64-72 | one turn of the loop as written keeps the matrix's shape |
| Matching.AsWrittenFirstTurnNaN | item_tracking/tracker.py:62-64 | on [[NaN, 0.2]] with threshold 1.0 the first turn's `np.nanmin` is 0.2, below the threshold, and `np.argmin` returns the NaN at (0, 0), where the corrected pick is (0, 1) |
| Matching.AsWrittenReusesRow | item_tracking/tracker.py:62-73 | with the pick as written, a second pair reuses observation 0 while `np.nanmin` is still below the threshold |
| Matching.AsWrittenLoopsForever | item_tracking/tracker.py:62-73 | with the pick as written, a turn can leave the matrix unchanged with `np.nanmin` below the threshold, so the loop never ends |
| Lifecycle.CenteredAll | item_tracking/tracker.py:43-45 | `barycenters` yields one result per observation |
| Lifecycle.Distances | item_tracking/tracker.py:51-52 | a row of the matrix has one entry per tracked item |
| Lifecycle.DistanceMatrix | item_tracking/tracker.py:47-52 | the matrix is `len(newItems)` by `len(trackedItems)` |
| Lifecycle.Compared | item_tracking/tracker.py:51-52 | only `distWeight` changes, to the overlap weight against the last tracked item (item.py:176-183); with no tracked item the observation is untouched |
| Lifecycle.Probed | item_tracking/tracker.py:47-52 | the comparisons leave one observation per observation |
| Lifecycle.AddedOver | item_tracking/tracker.py:81-85 | `addTracks` keeps the number of observations |
| Lifecycle.AddedAt | item_tracking/tracker.py:81-85 | with no index twice in `toAdd`, the k-th listed observation gets identity `maxID + k` and time `now`; the others are untouched |
| Lifecycle.StampAsWritten | item_tracking/tracker.py:87-100 | as written, the handler update agrees with `Stamp` except for a track in UPDATE |
| Lifecycle.UpdateBranchAsWritten | item_tracking/tracker.py:96-97 | as written, an observation matched with an UPDATE track stays ADD and is dropped, not requeued, when next unmatched; with `Stamp` it is UPDATE and requeued |
| Lifecycle.MergeAsWrittenLosesIdentity | item_tracking/tracker.py:101 | as written, a matched observation ends with no identity, which breaks the identity invariant; with `UpdateOne` it takes its track's identity and keeps the invariant |
| Lifecycle.UpdatedOver | item_tracking/tracker.py:87-101 | `updateTracks` keeps the number of observations |
| Lifecycle.Stamp | item_tracking/tracker.py:89-100 | only the handler changes and the identity is kept; against a young ADD track the state stays and the track's time is copied, otherwise the state becomes UPDATE at time `now` |
| Lifecycle.UpdateOne | item_tracking/tracker.py:88-101 | the handler is `Stamp`'s with the track's identity, and only the parts, their order and the handler change |
| Lifecycle.UpdatedAt | item_tracking/tracker.py:88-101 | with no observation matched twice, each matched observation is `UpdateOne` of itself and its track |
| Lifecycle.UpdatedElsewhere | item_tracking/tracker.py:88-101 | an observation no pair names is untouched by `updateTracks` |
| Lifecycle.UpdateTransition | item_tracking/tracker.py:87-101 | the transition table: the identity comes from the track; ADD seen at least `time_add` ago gives UPDATE at `now`; a younger ADD passes on its time; UPDATE and DELETE give UPDATE at `now` |
| Lifecycle.DeletedOver | item_tracking/tracker.py:103-115 | only indices listed in `toDelete` are requeued, and the number of tracked items is unchanged |
| Lifecycle.Retire | item_tracking/tracker.py:105-111 | the state becomes DELETE; a DELETE track is unchanged, any other becomes UNKNOWN, with nothing else changed |
| Lifecycle.DeletedItemsAt | item_tracking/tracker.py:104-111 | every unmatched track is retired once (ADD or UPDATE become DELETE with status UNKNOWN, DELETE stays); the others are untouched |
| Lifecycle.DeletedRequeuedAt | item_tracking/tracker.py:109-115 | an index is requeued exactly when it is unmatched and it is UPDATE, or DELETE seen less than `time_del` ago |
| Lifecycle.DeletedIncreasing | item_tracking/tracker.py:104-115 | the requeued tracks are appended in increasing index order |
| Lifecycle.Decide | item_tracking/tracker.py:35-37 | the decision is injective and lists every other index, in increasing order, to be added or deleted; the matrix is observations by tracked items |
| Lifecycle.LeftDistance | item_tracking/tracker.py:61-73 | the matrix left behind keeps its shape |
| Lifecycle.Prepared | item_tracking/tracker.py:35-36 | the prepared batch has one entry per observation |
| Lifecycle.Apply | item_tracking/tracker.py:38-41 | the next tracked list is this cycle's observations followed by the requeued tracks, in order; the counter grows by the number added |
| Lifecycle.ApplyAdded | item_tracking/tracker.py:38-39 | an added observation is unmatched and ends stamped with `maxID + k` and `now` |
| Lifecycle.ApplyUpdated | item_tracking/tracker.py:38-39 | a matched observation ends as `UpdateOne` of itself and its track |
| Lifecycle.ApplyDeletion | item_tracking/tracker.py:40 | `deleteTracks` retires exactly the unmatched tracks, requeues exactly those `Requeued` selects, in increasing order |
| Lifecycle.ApplyIdsAdded | item_tracking/tracker.py:81-85 | the k-th added observation carries identity `maxID + k` into the next list |
| Lifecycle.ApplyIdsMatched | item_tracking/tracker.py:101 | a matched observation carries its track's identity into the next list |
| Lifecycle.ApplyIdsKept | item_tracking/tracker.py:109-115 | a requeued track keeps its identity |
| Lifecycle.ApplyTraced | item_tracking/tracker.py:38-41 | every cycle is traced: each next entry's identity is the fresh, matched or kept one |
| Lifecycle.SourceOf | item_tracking/tracker.py:38-41 | each next entry is a fresh observation, a matched one or a requeued track, and carries that source's identity |
| Lifecycle.TracedIdsDistinct | item_tracking/tracker.py:81-115 | distinct identities below the counter stay distinct and below the new counter |
| Lifecycle.TracedDropsIds | item_tracking/tracker.py:104-108 | the identity of an unmatched track that is not requeued appears nowhere in the next list |
| Lifecycle.Cycle | item_tracking/tracker.py:34-41 | one cycle: a decision over the batch and the tracked items, one processed observation per observation, the next list the batch followed by the requeued tracks, and the counter advanced by the number added |
| Lifecycle.CycleKeepsLiveIds | item_tracking/tracker.py:34-41 | a whole cycle keeps the tracked identities live, distinct and below the counter |
| Lifecycle.ApplyKeepsWellFormed | item_tracking/tracker.py:81-115 | every entry of the next list has a well-formed dictionary when the observations and tracks had one |
| Lifecycle.CycleKeepsWellFormed | item_tracking/tracker.py:34-41 | a whole cycle keeps every tracked item's dictionary well formed |
| Lifecycle.ApplyKeepsIdsDistinct | item_tracking/tracker.py:81-85 | identities are fresh and never shared: the next list carries distinct identities below the new counter, and the k-th added one is `maxID + k` |
| Lifecycle.UnmatchedFate | item_tracking/tracker.py:103-115 | an unmatched track is in `toDelete`; it goes on exactly when `Requeued` selects it (never an ADD track); otherwise its identity disappears |
| Lifecycle.RequeuedEntries | item_tracking/tracker.py:103-115 | a requeued UPDATE track follows the observations as DELETE with status UNKNOWN; a requeued DELETE track is unchanged and seen less than `time_del` ago |
| Lifecycle.MatchedEntries | item_tracking/tracker.py:87-101 | each matched observation enters the next list as `UpdateOne` of itself and its track |
| Lifecycle.AddedEntries | item_tracking/tracker.py:81-85 | each added observation enters the next list with identity `maxID + k`, time `now`, nothing else changed |
| Lifecycle.DisjointNeverMatched | item_tracking/tracker.py:47-73 | an observation and a track with no part on sight in both are never paired |
| Tracking.Tracker.constructor | item_tracking/tracker.py:11-20 | no items, no matrix, counter 1, every parameter 1.0, invariant holds |
| Tracking.Tracker.SetParams | item_tracking/tracker.py:22-26 | each supplied parameter replaces the current one; nothing else changes |
| Tracking.Tracker.AddItem | item_tracking/tracker.py:31-32 | the item is appended to the queue; queuing an object the tracker does not hold keeps the invariant |
| Tracking.Tracker.Barycenters | item_tracking/tracker.py:43-45 | every queued observation takes `Centered`; tracked items are unchanged |
| Tracking.Tracker.DistanceRow | item_tracking/tracker.py:51-52 | the row is the distances to every tracked item, in order; the observation keeps the weight of its last comparison |
| Tracking.Tracker.ProbeStep | item_tracking/tracker.py:49-52 | one more row of the loop: the rows computed so far are `Distances` of their observations, and exactly the observations handled so far are `Compared` |
| Tracking.Tracker.DistanceCompute | item_tracking/tracker.py:47-52 | the matrix becomes `DistanceMatrix` of the snapshots; observations change only as `Probed` says |
| Tracking.Tracker.InvalidateRow | item_tracking/tracker.py:69-70 | the matrix becomes `NanRow` of the old one; nothing else changes |
| Tracking.Tracker.InvalidateColumn | item_tracking/tracker.py:71-72 | the matrix becomes `NanColumn` of the old one; nothing else changes |
| Tracking.Tracker.AcceptNext | item_tracking/tracker.py:64-73 | one turn keeps the loop state consistent with the greedy matching and accepts one more pair |
| Tracking.Tracker.AcceptPairs | item_tracking/tracker.py:62-73 | the loop accepts exactly the greedy matching, leaves the matrix masked by it, and lists its two sides |
| Tracking.Tracker.MatchingDistanceDecider | item_tracking/tracker.py:54-79 | `toUpdate` is `Greedy` of the matrix, `toAdd` and `toDelete` the unmatched indices; the matrix left is `LeftDistance`; items unchanged |
| Tracking.Tracker.AddTracks | item_tracking/tracker.py:81-85 | the observations become `AddedOver` of their old snapshots, and the counter grows by `len(toAdd)` |
| Tracking.Tracker.UpdatePair | item_tracking/tracker.py:88-101 | one pair: the observation becomes `UpdateOne` of itself and its track; nothing else changes |
| Tracking.Tracker.UpdateTracks | item_tracking/tracker.py:87-101 | the observations become `UpdatedOver` of their old snapshots; tracked items unchanged |
| Tracking.Tracker.DeleteOne | item_tracking/tracker.py:105-115 | the track becomes `Retire` of itself and is appended to the queue exactly when `Requeued` selects it |
| Tracking.Tracker.DeleteStep | item_tracking/tracker.py:104-115 | one turn keeps the loop state consistent with `DeletedOver` of the indices handled |
| Tracking.Tracker.DeleteTracks | item_tracking/tracker.py:103-115 | tracked items become `DeletedOver`'s, and the queue grows by the requeued tracks, as objects, in order |
| Tracking.Tracker.Prepare | item_tracking/tracker.py:35-37 | the observations become `Prepared`, the decision is `Decide`'s, the matrix is `LeftDistance` |
| Tracking.Tracker.Refresh | item_tracking/tracker.py:38-39 | the observations become `UpdatedOver` of `AddedOver` of their snapshots |
| Tracking.Tracker.Commit | item_tracking/tracker.py:38-41 | the tracked list becomes the batch objects followed by the requeued tracks, with the values `Apply` describes; the queue is emptied |
| Tracking.Tracker.UpdateTracking | item_tracking/tracker.py:34-41 | one cycle reaches exactly `Cycle`'s next list and counter, empties the queue and keeps the invariant |
| Tracking.CycleSplit | item_tracking/tracker.py:34-41 | `Cycle`'s next list is the observations after `addTracks` and `updateTracks`, followed by the tracks `deleteTracks` requeues; the counter grows by the number added, and identities stay live and distinct |
| Tracking.ApplySplit | item_tracking/tracker.py:38-41 | `Apply` is `addTracks`, then `updateTracks`, then `deleteTracks` and the concatenation |

## Left out

- `setOrientation` (item.py:134-149): it relies on `scipy.stats.circmean`, a trigonometric floating-point routine. The item's `rx`, `ry`, `rz` are not modelled.
- The square root of `dist`: `np.sqrt` is a numeric library routine and is passed in as the parameter `sqrt`.
- Floating point: reals stand for floats, and NaN is the `Cell` case `NaN`.
- Clock readings: `time.time()` and `self.now()` become the parameter `now`, one value per cycle, and the constructor's `seen`.
  - The source reads the clock anew at each call. The model uses one reading per cycle.
  - The `nowTime` option of `setParams` is this parameter.
- The POINTCLOUD branches, `setSize`, `size`, `acceleration`, `other` and `ref`: they are placeholders or unused.
- The `print` error paths and the `TypeError` catch of `setBarycenter`: they are I/O. `setBarycenter` skips an incompletely positioned part instead.
- The `__main__` block of tracker.py and the demo script `simple_tracking.py`: drivers with no logic of their own.
- The flattened index `p // cSize, p % cSize` of `np.argmin`: the model's argmin returns the row and column directly.
- Component objects are values. The source shares a carried-forward component object between the old and the new item and sets its status to UNKNOWN in both. The old item is dropped right after, so the model does not capture this sharing.
- Items.Item.SetSpeed: the model requires a non-zero summed weight. With no on-sight part that has a speed, the source divides the integer 0 by the integer 0 and raises `ZeroDivisionError`. With speeds present whose weights sum to 0.0, the speeds are numpy floats (they come from `np.sqrt`), so the division gives `inf` or `nan` with only a RuntimeWarning.
- Items.MergedSpeed: with no elapsed time (every match with an ADD track younger than `time_add`, since tracker.py:95 copies the track's time onto the observation before the merge), the source divides the numpy float from `np.sqrt` by 0.0 at item.py:201. It stores `inf` as the speed, or `nan` for a part that did not move, with only a RuntimeWarning. The model gives no speed there, because a speed is undefined when no time has elapsed. Only a shared part on sight in the predecessor with a missing x, y or z on either side makes the source raise: `dist` raises `TypeError` (item.py:68-70, called at item.py:199). The model gives that part no speed too.
- Tracking.Tracker.AddItem: a queued object the tracker already holds is allowed; the invariant is promised only for a new object.
- Tracking.Tracker.Commit: distinct objects in the next tracked list are promised only when `toDelete` is increasing, which is what `matchingDistanceDecider` produces.
- The tracker's invariant `Valid()` does not include each item's dictionary invariant. Instead, `Lifecycle.CycleKeepsWellFormed` proves on the values that a cycle keeps every tracked item's dictionary well formed.
- Tracking.Tracker.Barycenters: this and the other steps of a cycle require the queued and tracked objects to be distinct and disjoint. That is the tracker's invariant; the source does not check it.

## Findings

| source | as written | input that shows it | evidently intended | confidence | as-written member | corrected member |
|---|---|---|---|---|---|---|
| item_tracking/tracker.py:64 | `np.argmin` returns the first NaN whenever the matrix holds one, so a NaN position is accepted as a pair. This happens on the first turn already, because `__eq__` gives NaN to every pair with no shared on-sight part (item.py:186), and on every later turn, once a row and a column are overwritten | on the first turn, matrix [[NaN, 0.2]], threshold 1.0: the pair (track 0, obs 0) is accepted at the NaN; later, matrix [[0.5, 0.2], [0.3, 0.9]], threshold 1.0: pairs (track 1, obs 0) then (track 0, obs 0), and observation 1 is never matched | pick the first row-major minimum among the entries that are not NaN | high; not executed | Matching.AsWrittenFirstTurnNaN, Matching.AsWrittenReusesRow | Matching.GreedyStep |
| item_tracking/tracker.py:64 | the NaN position picked can lie on a row and a column already overwritten, so the turn changes nothing | matrix [[0.2, 0.5], [0.5, 0.9]], threshold 1.0: after the first turn the loop repeats forever with `np.nanmin` at 0.9 | the same corrected pick, after which each turn uses a new row and column | high; not executed | Matching.AsWrittenLoopsForever | Matching.GreedyBound |
| item_tracking/tracker.py:96-97 | a match with an UPDATE track sets only the time, so the new observation stays in ADD | a fresh observation matched with an UPDATE track: it ends in ADD, and when next unmatched it is dropped instead of kept as a ghost | the state becomes UPDATE, as in the DELETE branch | medium; not executed | Lifecycle.UpdateBranchAsWritten | Lifecycle.UpdateTransition |
| item_tracking/tracker.py:101 | the merge `old > new` does not copy the identity, so a matched observation keeps none | any matched pair: the observation enters the next tracked list with no identity | the observation takes over its track's identity | high; not executed | Lifecycle.MergeAsWrittenLosesIdentity | Lifecycle.ApplyKeepsIdsDistinct |
