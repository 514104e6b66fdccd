/**
 * One cycle of the tracker (item_tracking/tracker.py, `updateTracking`), on values.
 *
 * `Cycle` describes every step of a cycle as a function of the batch of observations, the
 * items tracked so far, the identity counter, the parameters and the cycle's clock reading.
 * The class `Tracker` carries out the same steps on objects and is proved to reach exactly
 * this result. The lemmas here state what a cycle promises: fresh and distinct identities,
 * the transition table of matched tracks and the fate of unmatched ones.
 */
module Lifecycle {
  import opened Optional
  import opened Cells
  import opened Components
  import opened Items
  import opened Matching

  /** `thresholdDist`, `time_add` and `time_del`. */
  datatype Params = Params(thresholdDist: real, timeAdd: real, timeDel: real)

  // ---------------------------------------------------------------------------------------
  // Barycenters and the distance matrix

  /** `barycenters`: every observation of the batch gets its barycenter. */
  function CenteredAll(batch: seq<ItemValue>): (r: seq<ItemValue>)
    ensures |r| == |batch|
  {
    seq(|batch|, l requires 0 <= l < |batch| => Centered(batch[l]))
  }

  /** The inner loop of `distanceCompute`: entry c is the distance from `v` to tracked item c. */
  function Distances(v: ItemValue, tracked: seq<ItemValue>, sqrt: real -> real): (row: seq<Cell>)
    ensures |row| == |tracked|
  {
    seq(|tracked|, c requires 0 <= c < |tracked| => Distance(v, tracked[c], sqrt))
  }

  /** `distanceCompute`: entry [l][c] is the distance from observation l to tracked item c. */
  function DistanceMatrix(batch: seq<ItemValue>, tracked: seq<ItemValue>, sqrt: real -> real): (D: Matrix)
    ensures |D| == |batch| && Rect(D, |tracked|)
  {
    seq(|batch|, l requires 0 <= l < |batch| => Distances(batch[l], tracked, sqrt))
  }

  /** The side effect of the comparisons on `v`: it keeps the weight of its last one. */
  function Compared(v: ItemValue, tracked: seq<ItemValue>): (r: ItemValue)
    ensures r.(distWeight := v.distWeight) == v
    ensures tracked == [] ==> r == v
    ensures tracked != [] ==> r.distWeight == OverlapWeight(v, tracked[|tracked| - 1])
  {
    if tracked == [] then v else v.(distWeight := OverlapWeight(v, tracked[|tracked| - 1]))
  }

  /** The side effect of `distanceCompute` on every observation. */
  function Probed(batch: seq<ItemValue>, tracked: seq<ItemValue>): (r: seq<ItemValue>)
    ensures |r| == |batch|
  {
    seq(|batch|, l requires 0 <= l < |batch| => Compared(batch[l], tracked))
  }

  // ---------------------------------------------------------------------------------------
  // addTracks

  /** A new track: identity `id`, last seen `now`. */
  function Stamped(v: ItemValue, id: nat, now: real): ItemValue {
    v.(handler := v.handler.(id := Some(id), lastSeen := now))
  }

  /** `addTracks`: the k-th index of `toAdd` receives identity `firstId + k`. */
  function AddedOver(items: seq<ItemValue>, toAdd: seq<nat>, firstId: nat, now: real): (r: seq<ItemValue>)
    requires forall k :: 0 <= k < |toAdd| ==> toAdd[k] < |items|
    ensures |r| == |items|
    decreases |toAdd|
  {
    if toAdd == [] then items
    else
      var i := |toAdd| - 1;
      var r := AddedOver(items, toAdd[..i], firstId, now);
      r[toAdd[i] := Stamped(r[toAdd[i]], firstId + i, now)]
  }

  /** With no index listed twice, `AddedOver` stamps each listed item once and leaves the others. */
  lemma {:induction false} AddedAt(items: seq<ItemValue>, toAdd: seq<nat>, firstId: nat, now: real)
    requires forall k :: 0 <= k < |toAdd| ==> toAdd[k] < |items|
    requires Distinct(toAdd)
    ensures var r := AddedOver(items, toAdd, firstId, now);
      && (forall k :: 0 <= k < |toAdd| ==> r[toAdd[k]] == Stamped(items[toAdd[k]], firstId + k, now))
      && (forall l :: 0 <= l < |items| && l !in toAdd ==> r[l] == items[l])
  {
    if toAdd != [] {
      var i := |toAdd| - 1;
      var init := toAdd[..i];
      AddedAt(items, init, firstId, now);
      forall k | 0 <= k < i ensures toAdd[k] != toAdd[i] && toAdd[k] == init[k] {
      }
    }
  }

  // ---------------------------------------------------------------------------------------
  // updateTracks

  /** The handler update of `updateTracks` for observation `n` matched with tracked item `o`. */
  function Stamp(n: ItemValue, o: ItemValue, now: real, timeAdd: real): (r: ItemValue)
    ensures r.(handler := n.handler) == n && r.handler.id == n.handler.id
    ensures o.handler.state == Add && now - o.handler.lastSeen < timeAdd ==>
      r.handler.state == n.handler.state && r.handler.lastSeen == o.handler.lastSeen
    ensures !(o.handler.state == Add && now - o.handler.lastSeen < timeAdd) ==>
      r.handler.state == Update && r.handler.lastSeen == now
  {
    var h := n.handler;
    match o.handler.state
    case Add =>
      if now - o.handler.lastSeen >= timeAdd then n.(handler := h.(lastSeen := now, state := Update))
      else n.(handler := h.(lastSeen := o.handler.lastSeen))
    case Update => n.(handler := h.(lastSeen := now, state := Update))
    case Delete => n.(handler := h.(state := Update, lastSeen := now))
  }

  /**
   * The handler update as the source writes it: the UPDATE branch sets only the time, so the
   * observation keeps the state it was created with.
   */
  function StampAsWritten(n: ItemValue, o: ItemValue, now: real, timeAdd: real): (r: ItemValue)
    ensures o.handler.state != Update ==> r == Stamp(n, o, now, timeAdd)
  {
    match o.handler.state
    case Update => n.(handler := n.handler.(lastSeen := now))
    case _ => Stamp(n, o, now, timeAdd)
  }

  /**
   * As written, a confirmed track falls back to ADD: a fresh observation matched with an
   * UPDATE track leaves the merge in ADD, and if it then goes unmatched it is dropped instead
   * of becoming a ghost. With `Stamp` the observation is UPDATE and is requeued.
   */
  lemma UpdateBranchAsWritten(name: string, seen: real, o: ItemValue, now: real, timeAdd: real, later: real, timeDel: real, sqrt: real -> real)
    requires o.handler.state == Update
    ensures var n := Blank(name, seen);
      var w := Merged(StampAsWritten(n, o, now, timeAdd), o, sqrt);
      var c := UpdateOne(n, o, now, timeAdd, sqrt);
      && w.handler.state == Add && !Requeued(w, later, timeDel)
      && c.handler.state == Update && Requeued(c, later, timeDel)
  {
  }

  /**
   * As written, the merge does not carry the identity over: an observation matched with a
   * tracked item keeps the identity it was created without, so the next tracked list holds
   * an item with no identity. With `Merged` it takes over the track's identity.
   */
  lemma MergeAsWrittenLosesIdentity(name: string, seen: real, o: ItemValue, now: real, timeAdd: real, maxID: nat, sqrt: real -> real)
    requires LiveIds([o], maxID)
    ensures var n := Blank(name, seen);
      var w := MergedAsWritten(Stamp(n, o, now, timeAdd), o, sqrt);
      var c := UpdateOne(n, o, now, timeAdd, sqrt);
      && w.handler.id.None? && !LiveIds([w], maxID)
      && c.handler.id == o.handler.id && LiveIds([c], maxID)
  {
    var n := Blank(name, seen);
    assert Stamp(n, o, now, timeAdd).handler.id.None?;
    assert [o][0] == o;
    var w := MergedAsWritten(Stamp(n, o, now, timeAdd), o, sqrt);
    assert [w][0] == w;
    var c := UpdateOne(n, o, now, timeAdd, sqrt);
    assert [c][0] == c;
  }

  /** One pair of `updateTracks`: the handler update, then the merge `old > new`. */
  function UpdateOne(n: ItemValue, o: ItemValue, now: real, timeAdd: real, sqrt: real -> real): (r: ItemValue)
    ensures r.handler == Stamp(n, o, now, timeAdd).handler.(id := o.handler.id)
    ensures r.(components := n.components, order := n.order, handler := n.handler) == n
  {
    Merged(Stamp(n, o, now, timeAdd), o, sqrt)
  }

  /** `updateTracks` over the pairs, in order: `UpdateOne(new, old)` for each pair. */
  function UpdatedOver(items: seq<ItemValue>, tracked: seq<ItemValue>, pairs: seq<Pair>, now: real, timeAdd: real, sqrt: real -> real): (r: seq<ItemValue>)
    requires forall k :: 0 <= k < |pairs| ==> pairs[k].obs < |items| && pairs[k].track < |tracked|
    ensures |r| == |items|
    decreases |pairs|
  {
    if pairs == [] then items
    else
      var i := |pairs| - 1;
      var r := UpdatedOver(items, tracked, pairs[..i], now, timeAdd, sqrt);
      var p := pairs[i];
      r[p.obs := UpdateOne(r[p.obs], tracked[p.track], now, timeAdd, sqrt)]
  }

  /** One more pair updates one more observation. */
  lemma UpdatedSnoc(items: seq<ItemValue>, tracked: seq<ItemValue>, pairs: seq<Pair>, k: nat, now: real, timeAdd: real, sqrt: real -> real)
    requires forall j :: 0 <= j < |pairs| ==> pairs[j].obs < |items| && pairs[j].track < |tracked|
    requires k < |pairs|
    ensures var r := UpdatedOver(items, tracked, pairs[..k], now, timeAdd, sqrt); var p := pairs[k];
      UpdatedOver(items, tracked, pairs[..k + 1], now, timeAdd, sqrt) == r[p.obs := UpdateOne(r[p.obs], tracked[p.track], now, timeAdd, sqrt)]
  {
    assert pairs[..k + 1][..k] == pairs[..k];
  }

  /** Dropping the last pair keeps the observations distinct and frees the last one. */
  lemma NewsInit(pairs: seq<Pair>)
    requires pairs != [] && Distinct(News(pairs))
    ensures var i := |pairs| - 1; var init := pairs[..i];
      && pairs == init + [pairs[i]] && News(pairs) == News(init) + [pairs[i].obs]
      && Distinct(News(init)) && pairs[i].obs !in News(init)
      && forall k :: 0 <= k < i ==> init[k] == pairs[k] && pairs[k].obs != pairs[i].obs
  {
    var i := |pairs| - 1;
    var init := pairs[..i];
    assert pairs == init + [pairs[i]];
    AppendPair(init, pairs[i]);
    forall k | 0 <= k < i ensures pairs[k].obs != pairs[i].obs {
      assert News(pairs)[k] != News(pairs)[i];
    }
  }

  /** An observation no pair matches is left as it is. */
  lemma {:induction false} UpdatedElsewhere(items: seq<ItemValue>, tracked: seq<ItemValue>, pairs: seq<Pair>, now: real, timeAdd: real, sqrt: real -> real)
    requires forall k :: 0 <= k < |pairs| ==> pairs[k].obs < |items| && pairs[k].track < |tracked|
    ensures var r := UpdatedOver(items, tracked, pairs, now, timeAdd, sqrt);
      forall l :: 0 <= l < |items| && l !in News(pairs) ==> r[l] == items[l]
  {
    if pairs != [] {
      var i := |pairs| - 1;
      var init := pairs[..i];
      assert pairs == init + [pairs[i]];
      AppendPair(init, pairs[i]);
      UpdatedElsewhere(items, tracked, init, now, timeAdd, sqrt);
    }
  }

  /** With no observation matched twice, each matched observation is updated once from its track. */
  lemma {:induction false} UpdatedAt(items: seq<ItemValue>, tracked: seq<ItemValue>, pairs: seq<Pair>, now: real, timeAdd: real, sqrt: real -> real)
    requires forall k :: 0 <= k < |pairs| ==> pairs[k].obs < |items| && pairs[k].track < |tracked|
    requires Distinct(News(pairs))
    ensures var r := UpdatedOver(items, tracked, pairs, now, timeAdd, sqrt);
      forall k :: 0 <= k < |pairs| ==> r[pairs[k].obs] == UpdateOne(items[pairs[k].obs], tracked[pairs[k].track], now, timeAdd, sqrt)
  {
    if pairs != [] {
      var i := |pairs| - 1;
      var init := pairs[..i];
      NewsInit(pairs);
      UpdatedAt(items, tracked, init, now, timeAdd, sqrt);
      UpdatedElsewhere(items, tracked, init, now, timeAdd, sqrt);
    }
  }

  // ---------------------------------------------------------------------------------------
  // deleteTracks

  /** The tracked items after `deleteTracks`, and the indices it appended, in order. */
  datatype Deletion = Deletion(items: seq<ItemValue>, requeued: seq<nat>)

  /** An unmatched ADD or UPDATE track becomes DELETE with status UNKNOWN; a DELETE one is left as it is. */
  function Retire(v: ItemValue): (r: ItemValue)
    ensures r.handler == v.handler.(state := Delete)
    ensures v.handler.state == Delete ==> r == v
    ensures v.handler.state != Delete ==> r.status == Unknown && r.(status := v.status, handler := v.handler) == v
  {
    if v.handler.state == Delete then v else v.(status := Unknown, handler := v.handler.(state := Delete))
  }

  /** Whether an unmatched track goes on to the next cycle: UPDATE always, DELETE within `time_del`. */
  predicate Requeued(v: ItemValue, now: real, timeDel: real) {
    v.handler.state == Update || (v.handler.state == Delete && now - v.handler.lastSeen < timeDel)
  }

  /** `deleteTracks` over the unmatched tracked indices, in order. */
  function DeletedOver(tracked: seq<ItemValue>, toDelete: seq<nat>, now: real, timeDel: real): (r: Deletion)
    requires forall k :: 0 <= k < |toDelete| ==> toDelete[k] < |tracked|
    ensures |r.items| == |tracked|
    ensures forall k :: 0 <= k < |r.requeued| ==> r.requeued[k] in toDelete && r.requeued[k] < |tracked|
    decreases |toDelete|
  {
    if toDelete == [] then Deletion(tracked, [])
    else
      var i := |toDelete| - 1;
      var r := DeletedOver(tracked, toDelete[..i], now, timeDel);
      var c := toDelete[i];
      var v := r.items[c];
      Deletion(r.items[c := Retire(v)], r.requeued + if Requeued(v, now, timeDel) then [c] else [])
  }

  predicate Increasing(s: seq<nat>) {
    forall i, j :: 0 <= i < j < |s| ==> s[i] < s[j]
  }

  /** No index is listed twice in an increasing list, so the last one is not listed before. */
  lemma IncreasingLast(s: seq<nat>)
    requires s != [] && Increasing(s)
    ensures Increasing(s[..|s| - 1]) && s[|s| - 1] !in s[..|s| - 1]
  {
    var i := |s| - 1;
    forall k | 0 <= k < i ensures s[..i][k] != s[i] {
      assert s[k] < s[i];
    }
  }

  /**
   * With the unmatched indices in increasing order, `deleteTracks` retires each of them once
   * and leaves every other tracked item alone.
   */
  lemma {:induction false} DeletedItemsAt(tracked: seq<ItemValue>, toDelete: seq<nat>, now: real, timeDel: real)
    requires forall k :: 0 <= k < |toDelete| ==> toDelete[k] < |tracked|
    requires Increasing(toDelete)
    ensures var r := DeletedOver(tracked, toDelete, now, timeDel);
      forall c :: 0 <= c < |tracked| ==> r.items[c] == if c in toDelete then Retire(tracked[c]) else tracked[c]
  {
    if toDelete != [] {
      var i := |toDelete| - 1;
      IncreasingLast(toDelete);
      assert toDelete == toDelete[..i] + [toDelete[i]];
      DeletedItemsAt(tracked, toDelete[..i], now, timeDel);
    }
  }

  /** `deleteTracks` requeues exactly the unmatched tracks that `Requeued` selects. */
  lemma {:induction false} DeletedRequeuedAt(tracked: seq<ItemValue>, toDelete: seq<nat>, now: real, timeDel: real)
    requires forall k :: 0 <= k < |toDelete| ==> toDelete[k] < |tracked|
    requires Increasing(toDelete)
    ensures var r := DeletedOver(tracked, toDelete, now, timeDel);
      forall c: nat :: c in r.requeued <==> c in toDelete && Requeued(tracked[c], now, timeDel)
  {
    if toDelete != [] {
      var i := |toDelete| - 1;
      IncreasingLast(toDelete);
      assert toDelete == toDelete[..i] + [toDelete[i]];
      DeletedItemsAt(tracked, toDelete[..i], now, timeDel);
      DeletedRequeuedAt(tracked, toDelete[..i], now, timeDel);
    }
  }

  /** `deleteTracks` requeues in the order of `toDelete`, so in increasing order. */
  lemma {:induction false} DeletedIncreasing(tracked: seq<ItemValue>, toDelete: seq<nat>, now: real, timeDel: real)
    requires forall k :: 0 <= k < |toDelete| ==> toDelete[k] < |tracked|
    requires Increasing(toDelete)
    ensures Increasing(DeletedOver(tracked, toDelete, now, timeDel).requeued)
  {
    if toDelete != [] {
      var i := |toDelete| - 1;
      var init, c := toDelete[..i], toDelete[i];
      IncreasingLast(toDelete);
      DeletedIncreasing(tracked, init, now, timeDel);
      var r := DeletedOver(tracked, init, now, timeDel);
      forall k | 0 <= k < |r.requeued| ensures r.requeued[k] < c {
        var j :| 0 <= j < |init| && init[j] == r.requeued[k];
        assert toDelete[j] < toDelete[i];
      }
    }
  }

  // ---------------------------------------------------------------------------------------
  // The whole cycle

  /** What `matchingDistanceDecider` decides, and the matrix it decides on. */
  datatype Decision = Decision(distance: Matrix, pairs: seq<Pair>, toAdd: seq<nat>, toDelete: seq<nat>)

  /**
   * A decision for `rows` observations and `cols` tracked items: the pairs use no index twice
   * and every other index is listed, in increasing order, to be added or deleted.
   */
  predicate Decided(d: Decision, rows: nat, cols: nat) {
    && Injective(d.pairs, rows, cols)
    && d.toAdd == Unmatched(rows, News(d.pairs))
    && d.toDelete == Unmatched(cols, Olds(d.pairs))
  }

  /** `barycenters`, `distanceCompute` and `matchingDistanceDecider`. */
  function Decide(batch: seq<ItemValue>, tracked: seq<ItemValue>, threshold: real, sqrt: real -> real): (d: Decision)
    ensures Decided(d, |batch|, |tracked|)
    ensures |d.distance| == |batch| && Rect(d.distance, |tracked|)
  {
    var D := DistanceMatrix(CenteredAll(batch), tracked, sqrt);
    var pairs := Greedy(D, |tracked|, threshold);
    Decision(D, pairs, Unmatched(|batch|, News(pairs)), Unmatched(|tracked|, Olds(pairs)))
  }

  /**
   * The matrix the tracker keeps after a cycle: the matcher overwrites the rows and columns
   * of the accepted pairs with NaN, and leaves the matrix alone when either side is empty.
   */
  function LeftDistance(D: Matrix, cols: nat, threshold: real): (M: Matrix)
    requires Rect(D, cols)
    ensures |M| == |D| && Rect(M, cols)
  {
    if |D| == 0 || cols == 0 then D else Masked(D, Greedy(D, cols, threshold))
  }

  /** The observations of the batch as `addTracks` finds them. */
  function Prepared(batch: seq<ItemValue>, tracked: seq<ItemValue>): (r: seq<ItemValue>)
    ensures |r| == |batch|
  {
    Probed(CenteredAll(batch), tracked)
  }

  /** Everything one cycle computes after the decision. */
  datatype CycleResult = CycleResult(
    decision: Decision,
    batch: seq<ItemValue>,   // this cycle's observations after addTracks and updateTracks
    deletion: Deletion,      // the tracked items after deleteTracks, and the requeued indices
    next: seq<ItemValue>,    // the next cycle's tracked items
    maxID: nat)

  /** `addTracks`, `updateTracks` and `deleteTracks` on the prepared observations `pre`. */
  function Apply(pre: seq<ItemValue>, tracked: seq<ItemValue>, d: Decision, maxID: nat, p: Params, now: real, sqrt: real -> real): (r: CycleResult)
    requires Decided(d, |pre|, |tracked|)
    ensures |r.batch| == |pre| && |r.deletion.items| == |tracked| && r.decision == d
    ensures |r.next| == |pre| + |r.deletion.requeued|
    ensures forall l :: 0 <= l < |pre| ==> r.next[l] == r.batch[l]
    ensures forall k :: 0 <= k < |r.deletion.requeued| ==>
      r.deletion.requeued[k] < |tracked| && r.next[|pre| + k] == r.deletion.items[r.deletion.requeued[k]]
    ensures r.maxID == maxID + |d.toAdd|
  {
    var added := AddedOver(pre, d.toAdd, maxID, now);
    var updated := UpdatedOver(added, tracked, d.pairs, now, p.timeAdd, sqrt);
    var deletion := DeletedOver(tracked, d.toDelete, now, p.timeDel);
    var next := updated + seq(|deletion.requeued|, k requires 0 <= k < |deletion.requeued| => deletion.items[deletion.requeued[k]]);
    CycleResult(d, updated, deletion, next, maxID + |d.toAdd|)
  }

  /** `updateTracking`, for the observations `batch` and the tracked items `tracked`. */
  function Cycle(batch: seq<ItemValue>, tracked: seq<ItemValue>, maxID: nat, p: Params, now: real, sqrt: real -> real): (r: CycleResult)
    ensures Decided(r.decision, |batch|, |tracked|) && |r.batch| == |batch| && |r.deletion.items| == |tracked|
    ensures |r.next| == |batch| + |r.deletion.requeued| && r.maxID == maxID + |r.decision.toAdd|
  {
    Apply(Prepared(batch, tracked), tracked, Decide(batch, tracked, p.thresholdDist, sqrt), maxID, p, now, sqrt)
  }

  /**
   * The identities every cycle keeps: each tracked item has one, between 1 and the counter,
   * and no two share it.
   */
  predicate LiveIds(vs: seq<ItemValue>, maxID: nat) {
    && (forall k :: 0 <= k < |vs| ==> vs[k].handler.id.Some? && 1 <= vs[k].handler.id.value < maxID)
    && (forall i, j :: 0 <= i < j < |vs| ==> vs[i].handler.id != vs[j].handler.id)
  }

  /** The added observations after `addTracks` and `updateTracks`. */
  lemma ApplyAdded(pre: seq<ItemValue>, tracked: seq<ItemValue>, d: Decision, maxID: nat, p: Params, now: real, sqrt: real -> real)
    requires Decided(d, |pre|, |tracked|)
    ensures var r := Apply(pre, tracked, d, maxID, p, now, sqrt);
      forall k :: 0 <= k < |d.toAdd| ==> d.toAdd[k] !in News(d.pairs) && r.batch[d.toAdd[k]] == Stamped(pre[d.toAdd[k]], maxID + k, now)
  {
    var added := AddedOver(pre, d.toAdd, maxID, now);
    AddedAt(pre, d.toAdd, maxID, now);
    UpdatedAt(added, tracked, d.pairs, now, p.timeAdd, sqrt);
    UpdatedElsewhere(added, tracked, d.pairs, now, p.timeAdd, sqrt);
  }

  /** The matched observations after `addTracks` and `updateTracks`. */
  lemma ApplyUpdated(pre: seq<ItemValue>, tracked: seq<ItemValue>, d: Decision, maxID: nat, p: Params, now: real, sqrt: real -> real)
    requires Decided(d, |pre|, |tracked|)
    ensures var r := Apply(pre, tracked, d, maxID, p, now, sqrt);
      forall k :: 0 <= k < |d.pairs| ==>
        r.batch[d.pairs[k].obs] == UpdateOne(pre[d.pairs[k].obs], tracked[d.pairs[k].track], now, p.timeAdd, sqrt)
  {
    var added := AddedOver(pre, d.toAdd, maxID, now);
    AddedAt(pre, d.toAdd, maxID, now);
    UpdatedAt(added, tracked, d.pairs, now, p.timeAdd, sqrt);
    UpdatedElsewhere(added, tracked, d.pairs, now, p.timeAdd, sqrt);
    forall k | 0 <= k < |d.pairs| ensures d.pairs[k].obs !in d.toAdd {
      assert News(d.pairs)[k] == d.pairs[k].obs;
    }
  }

  /** The tracked items after `deleteTracks`, and the ones it requeues. */
  lemma ApplyDeletion(pre: seq<ItemValue>, tracked: seq<ItemValue>, d: Decision, maxID: nat, p: Params, now: real, sqrt: real -> real)
    requires Decided(d, |pre|, |tracked|)
    ensures var r := Apply(pre, tracked, d, maxID, p, now, sqrt);
      && (forall c :: 0 <= c < |tracked| ==> r.deletion.items[c] == if c in d.toDelete then Retire(tracked[c]) else tracked[c])
      && (forall c: nat :: c in r.deletion.requeued <==> c in d.toDelete && Requeued(tracked[c], now, p.timeDel))
      && Increasing(r.deletion.requeued)
  {
    DeletedItemsAt(tracked, d.toDelete, now, p.timeDel);
    DeletedRequeuedAt(tracked, d.toDelete, now, p.timeDel);
    DeletedIncreasing(tracked, d.toDelete, now, p.timeDel);
  }

  /**
   * What the identity lemmas need to know of a cycle's result `r`: the decision it carries
   * out, the new counter, which tracked indices were requeued, and which identity each entry
   * of the next tracked list carries, by where it comes from.
   */
  predicate Traced(r: CycleResult, pre: seq<ItemValue>, tracked: seq<ItemValue>, d: Decision, maxID: nat) {
    var rq := r.deletion.requeued;
    && Decided(d, |pre|, |tracked|)
    && r.maxID == maxID + |d.toAdd|
    && |r.next| == |pre| + |rq|
    && (forall k :: 0 <= k < |rq| ==> rq[k] in d.toDelete && rq[k] < |tracked|)
    && Increasing(rq)
    && (forall k :: 0 <= k < |d.toAdd| ==> r.next[d.toAdd[k]].handler.id == Some(maxID + k))
    && (forall k :: 0 <= k < |d.pairs| ==> r.next[d.pairs[k].obs].handler.id == tracked[d.pairs[k].track].handler.id)
    && (forall k :: 0 <= k < |rq| ==> r.next[|pre| + k].handler.id == tracked[rq[k]].handler.id)
  }

  /** An added observation carries its fresh identity into the next tracked list. */
  lemma ApplyIdsAdded(pre: seq<ItemValue>, tracked: seq<ItemValue>, d: Decision, maxID: nat, p: Params, now: real, sqrt: real -> real)
    requires Decided(d, |pre|, |tracked|)
    ensures var r := Apply(pre, tracked, d, maxID, p, now, sqrt);
      forall k :: 0 <= k < |d.toAdd| ==> r.next[d.toAdd[k]].handler.id == Some(maxID + k)
  {
    ApplyAdded(pre, tracked, d, maxID, p, now, sqrt);
  }

  /** A matched observation carries the identity of its track into the next tracked list. */
  lemma ApplyIdsMatched(pre: seq<ItemValue>, tracked: seq<ItemValue>, d: Decision, maxID: nat, p: Params, now: real, sqrt: real -> real)
    requires Decided(d, |pre|, |tracked|)
    ensures var r := Apply(pre, tracked, d, maxID, p, now, sqrt);
      forall k :: 0 <= k < |d.pairs| ==> r.next[d.pairs[k].obs].handler.id == tracked[d.pairs[k].track].handler.id
  {
    var r := Apply(pre, tracked, d, maxID, p, now, sqrt);
    ApplyUpdated(pre, tracked, d, maxID, p, now, sqrt);
    forall k | 0 <= k < |d.pairs| ensures r.next[d.pairs[k].obs].handler.id == tracked[d.pairs[k].track].handler.id {
      var n, o := pre[d.pairs[k].obs], tracked[d.pairs[k].track];
      assert UpdateOne(n, o, now, p.timeAdd, sqrt) == Merged(Stamp(n, o, now, p.timeAdd), o, sqrt);
    }
  }

  /** A requeued track keeps its identity in the next tracked list. */
  lemma ApplyIdsKept(pre: seq<ItemValue>, tracked: seq<ItemValue>, d: Decision, maxID: nat, p: Params, now: real, sqrt: real -> real)
    requires Decided(d, |pre|, |tracked|)
    ensures var r := Apply(pre, tracked, d, maxID, p, now, sqrt); var rq := r.deletion.requeued;
      && (forall k :: 0 <= k < |rq| ==> rq[k] in d.toDelete && rq[k] < |tracked|)
      && Increasing(rq)
      && (forall k :: 0 <= k < |rq| ==> r.next[|pre| + k].handler.id == tracked[rq[k]].handler.id)
  {
    ApplyDeletion(pre, tracked, d, maxID, p, now, sqrt);
  }

  /**
   * Every cycle is traced: an added observation carries its fresh identity, a matched one
   * the identity of its track, a requeued track its own.
   */
  lemma ApplyTraced(pre: seq<ItemValue>, tracked: seq<ItemValue>, d: Decision, maxID: nat, p: Params, now: real, sqrt: real -> real)
    requires Decided(d, |pre|, |tracked|)
    ensures Traced(Apply(pre, tracked, d, maxID, p, now, sqrt), pre, tracked, d, maxID)
  {
    ApplyIdsAdded(pre, tracked, d, maxID, p, now, sqrt);
    ApplyIdsMatched(pre, tracked, d, maxID, p, now, sqrt);
    ApplyIdsKept(pre, tracked, d, maxID, p, now, sqrt);
  }

  /** Where an entry of the next tracked list comes from. */
  datatype Source = Added(k: nat) | Matched(k: nat) | Kept(k: nat)

  /** The origin of entry `i` of the next tracked list, and the identity it carries. */
  lemma SourceOf(r: CycleResult, pre: seq<ItemValue>, tracked: seq<ItemValue>, d: Decision, maxID: nat, i: nat)
      returns (s: Source)
    requires Traced(r, pre, tracked, d, maxID)
    requires i < |r.next|
    ensures var id := r.next[i].handler.id;
      match s
      case Added(k) => k < |d.toAdd| && d.toAdd[k] == i && id == Some(maxID + k)
      case Matched(k) => k < |d.pairs| && d.pairs[k].obs == i && id == tracked[d.pairs[k].track].handler.id
      case Kept(k) => |pre| + k == i && k < |r.deletion.requeued| && r.deletion.requeued[k] in d.toDelete
                      && r.deletion.requeued[k] < |tracked| && id == tracked[r.deletion.requeued[k]].handler.id
  {
    if i < |pre| {
      if i in d.toAdd {
        var k :| 0 <= k < |d.toAdd| && d.toAdd[k] == i;
        s := Added(k);
      } else {
        assert i in News(d.pairs);
        var k :| 0 <= k < |d.pairs| && News(d.pairs)[k] == i;
        s := Matched(k);
      }
    } else {
      s := Kept(i - |pre|);
    }
  }

  /**
   * In a traced cycle over tracked items with distinct identities below the counter, the
   * next items also carry distinct identities below the new counter.
   */
  lemma TracedIdsDistinct(r: CycleResult, pre: seq<ItemValue>, tracked: seq<ItemValue>, d: Decision, maxID: nat)
    requires Traced(r, pre, tracked, d, maxID)
    requires 1 <= maxID && LiveIds(tracked, maxID)
    ensures LiveIds(r.next, r.maxID)
  {
    forall i | 0 <= i < |r.next| ensures r.next[i].handler.id.Some? && 1 <= r.next[i].handler.id.value < r.maxID {
      var s := SourceOf(r, pre, tracked, d, maxID, i);
    }
    forall i, j | 0 <= i < j < |r.next| ensures r.next[i].handler.id != r.next[j].handler.id {
      TracedDistinctAt(r, pre, tracked, d, maxID, i, j);
    }
  }

  /** Two entries of the next tracked list of a traced cycle carry different identities. */
  lemma TracedDistinctAt(r: CycleResult, pre: seq<ItemValue>, tracked: seq<ItemValue>, d: Decision, maxID: nat, i: nat, j: nat)
    requires Traced(r, pre, tracked, d, maxID)
    requires LiveIds(tracked, maxID)
    requires i < j < |r.next|
    ensures r.next[i].handler.id != r.next[j].handler.id
  {
    var s := SourceOf(r, pre, tracked, d, maxID, i);
    var t := SourceOf(r, pre, tracked, d, maxID, j);
    if s.Matched? && t.Matched? {
      MatchedIdsDiffer(r, pre, tracked, d, maxID, s.k, t.k);
    } else if s.Matched? && t.Kept? {
      MatchedKeptIdsDiffer(r, pre, tracked, d, maxID, s.k, t.k);
    } else if s.Kept? && t.Matched? {
      MatchedKeptIdsDiffer(r, pre, tracked, d, maxID, t.k, s.k);
    } else if s.Kept? && t.Kept? {
      KeptIdsDiffer(r, pre, tracked, d, maxID, s.k, t.k);
    }
  }

  /** Two matched observations carry the identities of two different tracks. */
  lemma MatchedIdsDiffer(r: CycleResult, pre: seq<ItemValue>, tracked: seq<ItemValue>, d: Decision, maxID: nat, k: nat, k': nat)
    requires Traced(r, pre, tracked, d, maxID)
    requires LiveIds(tracked, maxID)
    requires k < |d.pairs| && k' < |d.pairs| && k != k'
    ensures tracked[d.pairs[k].track].handler.id != tracked[d.pairs[k'].track].handler.id
  {
    assert Olds(d.pairs)[k] != Olds(d.pairs)[k'];
  }

  /** A matched observation and a requeued track come from two different tracks. */
  lemma MatchedKeptIdsDiffer(r: CycleResult, pre: seq<ItemValue>, tracked: seq<ItemValue>, d: Decision, maxID: nat, k: nat, k': nat)
    requires Traced(r, pre, tracked, d, maxID)
    requires LiveIds(tracked, maxID)
    requires k < |d.pairs| && k' < |r.deletion.requeued|
    ensures tracked[d.pairs[k].track].handler.id != tracked[r.deletion.requeued[k']].handler.id
  {
    assert r.deletion.requeued[k'] !in Olds(d.pairs);
    assert Olds(d.pairs)[k] == d.pairs[k].track;
  }

  /** Two requeued tracks are two different tracks. */
  lemma KeptIdsDiffer(r: CycleResult, pre: seq<ItemValue>, tracked: seq<ItemValue>, d: Decision, maxID: nat, k: nat, k': nat)
    requires Traced(r, pre, tracked, d, maxID)
    requires LiveIds(tracked, maxID)
    requires k < k' < |r.deletion.requeued|
    ensures tracked[r.deletion.requeued[k]].handler.id != tracked[r.deletion.requeued[k']].handler.id
  {
    assert r.deletion.requeued[k] < r.deletion.requeued[k'];
  }

  /**
   * In a traced cycle over tracked items with distinct identities, the identity of an
   * unmatched track that is not requeued appears nowhere in the next tracked list.
   */
  lemma TracedDropsIds(r: CycleResult, pre: seq<ItemValue>, tracked: seq<ItemValue>, d: Decision, maxID: nat, c: nat)
    requires Traced(r, pre, tracked, d, maxID)
    requires LiveIds(tracked, maxID)
    requires c < |tracked| && c !in Olds(d.pairs) && c !in r.deletion.requeued
    ensures forall i :: 0 <= i < |r.next| ==> r.next[i].handler.id != tracked[c].handler.id
  {
    forall i | 0 <= i < |r.next| ensures r.next[i].handler.id != tracked[c].handler.id {
      var s := SourceOf(r, pre, tracked, d, maxID, i);
      match s {
        case Added(k) =>
        case Matched(k) =>
          assert Olds(d.pairs)[k] == d.pairs[k].track;
        case Kept(k) =>
          assert r.deletion.requeued[k] in r.deletion.requeued;
      }
    }
  }

  /**
   * Identities are fresh and never shared: if the tracked items carry distinct identities
   * below the counter, so do the next cycle's items below the new counter, and the k-th
   * added observation gets the old counter plus k, above every identity handed out before.
   */
  lemma ApplyKeepsIdsDistinct(pre: seq<ItemValue>, tracked: seq<ItemValue>, d: Decision, maxID: nat, p: Params, now: real, sqrt: real -> real)
    requires Decided(d, |pre|, |tracked|)
    requires 1 <= maxID && LiveIds(tracked, maxID)
    ensures var r := Apply(pre, tracked, d, maxID, p, now, sqrt);
      && LiveIds(r.next, r.maxID)
      && (forall k :: 0 <= k < |d.toAdd| ==> r.next[d.toAdd[k]].handler.id == Some(maxID + k))
  {
    ApplyTraced(pre, tracked, d, maxID, p, now, sqrt);
    TracedIdsDistinct(Apply(pre, tracked, d, maxID, p, now, sqrt), pre, tracked, d, maxID);
  }

  /**
   * A cycle keeps every item's dictionary well formed: each entry of the next tracked list is
   * an added observation, a merged one or a retired track, and none of those steps breaks it.
   */
  lemma ApplyKeepsWellFormed(pre: seq<ItemValue>, tracked: seq<ItemValue>, d: Decision, maxID: nat, p: Params, now: real, sqrt: real -> real)
    requires Decided(d, |pre|, |tracked|)
    requires forall l :: 0 <= l < |pre| ==> pre[l].WellFormed()
    requires forall c :: 0 <= c < |tracked| ==> tracked[c].WellFormed()
    ensures var r := Apply(pre, tracked, d, maxID, p, now, sqrt);
      forall i :: 0 <= i < |r.next| ==> r.next[i].WellFormed()
  {
    var r := Apply(pre, tracked, d, maxID, p, now, sqrt);
    ApplyAdded(pre, tracked, d, maxID, p, now, sqrt);
    ApplyUpdated(pre, tracked, d, maxID, p, now, sqrt);
    ApplyDeletion(pre, tracked, d, maxID, p, now, sqrt);
    forall k | 0 <= k < |r.deletion.requeued|
      ensures r.next[|pre| + k] == tracked[r.deletion.requeued[k]] || r.next[|pre| + k] == Retire(tracked[r.deletion.requeued[k]])
    {
    }
    forall i | 0 <= i < |r.next| ensures r.next[i].WellFormed() {
      NextWellFormed(r, pre, tracked, d, maxID, p.timeAdd, now, sqrt, i);
    }
  }

  /** Entry `i` of a next tracked list built as `Apply` builds it is well formed, by where it comes from. */
  lemma NextWellFormed(r: CycleResult, pre: seq<ItemValue>, tracked: seq<ItemValue>, d: Decision, maxID: nat, timeAdd: real, now: real, sqrt: real -> real, i: nat)
    requires Decided(d, |pre|, |tracked|)
    requires forall l :: 0 <= l < |pre| ==> pre[l].WellFormed()
    requires forall c :: 0 <= c < |tracked| ==> tracked[c].WellFormed()
    requires |r.next| == |pre| + |r.deletion.requeued| && |r.batch| == |pre|
    requires forall l :: 0 <= l < |pre| ==> r.next[l] == r.batch[l]
    requires forall k :: 0 <= k < |d.toAdd| ==> r.batch[d.toAdd[k]] == Stamped(pre[d.toAdd[k]], maxID + k, now)
    requires forall k :: 0 <= k < |d.pairs| ==>
      r.batch[d.pairs[k].obs] == UpdateOne(pre[d.pairs[k].obs], tracked[d.pairs[k].track], now, timeAdd, sqrt)
    requires forall k :: 0 <= k < |r.deletion.requeued| ==>
      && r.deletion.requeued[k] < |tracked|
      && (r.next[|pre| + k] == tracked[r.deletion.requeued[k]] || r.next[|pre| + k] == Retire(tracked[r.deletion.requeued[k]]))
    requires i < |r.next|
    ensures r.next[i].WellFormed()
  {
    if i >= |pre| {
      var k := i - |pre|;
      assert tracked[r.deletion.requeued[k]].WellFormed();
    } else if i in d.toAdd {
      var k :| 0 <= k < |d.toAdd| && d.toAdd[k] == i;
      assert r.next[i] == Stamped(pre[i], maxID + k, now);
    } else {
      assert i in News(d.pairs);
      var k :| 0 <= k < |d.pairs| && News(d.pairs)[k] == i;
      var n, o := pre[i], tracked[d.pairs[k].track];
      MergedWellFormed(Stamp(n, o, now, timeAdd), o, sqrt);
      assert r.next[i] == UpdateOne(n, o, now, timeAdd, sqrt);
    }
  }

  /** The whole cycle keeps the tracked items well formed when the observations and tracks were. */
  lemma CycleKeepsWellFormed(batch: seq<ItemValue>, tracked: seq<ItemValue>, maxID: nat, p: Params, now: real, sqrt: real -> real)
    requires forall l :: 0 <= l < |batch| ==> batch[l].WellFormed()
    requires forall c :: 0 <= c < |tracked| ==> tracked[c].WellFormed()
    ensures var r := Cycle(batch, tracked, maxID, p, now, sqrt);
      forall i :: 0 <= i < |r.next| ==> r.next[i].WellFormed()
  {
    var pre := Prepared(batch, tracked);
    forall l | 0 <= l < |pre| ensures pre[l].WellFormed() {
      assert pre[l] == Compared(Centered(batch[l]), tracked);
    }
    ApplyKeepsWellFormed(pre, tracked, Decide(batch, tracked, p.thresholdDist, sqrt), maxID, p, now, sqrt);
  }

  /** The whole cycle keeps the identities live and distinct below the new counter. */
  lemma CycleKeepsLiveIds(batch: seq<ItemValue>, tracked: seq<ItemValue>, maxID: nat, p: Params, now: real, sqrt: real -> real)
    requires 1 <= maxID && LiveIds(tracked, maxID)
    ensures var r := Cycle(batch, tracked, maxID, p, now, sqrt);
      LiveIds(r.next, r.maxID)
  {
    ApplyKeepsIdsDistinct(Prepared(batch, tracked), tracked, Decide(batch, tracked, p.thresholdDist, sqrt), maxID, p, now, sqrt);
  }

  /**
   * The fate of an unmatched tracked item: it is in `toDelete`; it goes on to the next cycle
   * exactly when `Requeued` selects it (an UPDATE track, or a DELETE track seen less than
   * `time_del` ago, so never an ADD track); and when it does not, no item of the next cycle
   * carries its identity.
   */
  lemma UnmatchedFate(pre: seq<ItemValue>, tracked: seq<ItemValue>, d: Decision, maxID: nat, p: Params, now: real, sqrt: real -> real, c: nat)
    requires Decided(d, |pre|, |tracked|)
    requires LiveIds(tracked, maxID)
    requires c < |tracked| && c !in Olds(d.pairs)
    ensures var r := Apply(pre, tracked, d, maxID, p, now, sqrt);
      && c in d.toDelete
      && (c in r.deletion.requeued <==> Requeued(tracked[c], now, p.timeDel))
      && (!Requeued(tracked[c], now, p.timeDel) ==>
            forall i :: 0 <= i < |r.next| ==> r.next[i].handler.id != tracked[c].handler.id)
  {
    var r := Apply(pre, tracked, d, maxID, p, now, sqrt);
    ApplyDeletion(pre, tracked, d, maxID, p, now, sqrt);
    ApplyTraced(pre, tracked, d, maxID, p, now, sqrt);
    if !Requeued(tracked[c], now, p.timeDel) {
      TracedDropsIds(r, pre, tracked, d, maxID, c);
    }
  }

  /**
   * A requeued track appears after this cycle's observations, retired: an UPDATE track as
   * DELETE with status UNKNOWN, a DELETE track unchanged, so keeping its last-seen time.
   */
  lemma RequeuedEntries(pre: seq<ItemValue>, tracked: seq<ItemValue>, d: Decision, maxID: nat, p: Params, now: real, sqrt: real -> real)
    requires Decided(d, |pre|, |tracked|)
    ensures var r := Apply(pre, tracked, d, maxID, p, now, sqrt); var rq := r.deletion.requeued;
      && |r.next| == |pre| + |rq|
      && forall k :: 0 <= k < |rq| ==>
           && rq[k] < |tracked| && rq[k] in d.toDelete
           && r.next[|pre| + k] == Retire(tracked[rq[k]])
           && (tracked[rq[k]].handler.state == Update ==>
                 r.next[|pre| + k] == tracked[rq[k]].(status := Unknown, handler := tracked[rq[k]].handler.(state := Delete)))
           && (tracked[rq[k]].handler.state == Delete ==>
                 r.next[|pre| + k] == tracked[rq[k]] && now - tracked[rq[k]].handler.lastSeen < p.timeDel)
  {
    var r := Apply(pre, tracked, d, maxID, p, now, sqrt);
    ApplyDeletion(pre, tracked, d, maxID, p, now, sqrt);
    forall k | 0 <= k < |r.deletion.requeued| ensures r.deletion.requeued[k] in r.deletion.requeued {
    }
  }

  /**
   * The transition table of `updateTracks` for observation `n` matched with track `o`: the
   * observation takes over the track's identity; an ADD track seen at least `time_add` ago
   * gives UPDATE at `now`, a younger one passes on its last-seen time; UPDATE and DELETE
   * tracks give UPDATE at `now`. The merge changes nothing else of the handler.
   */
  lemma UpdateTransition(n: ItemValue, o: ItemValue, now: real, timeAdd: real, sqrt: real -> real)
    ensures var h := UpdateOne(n, o, now, timeAdd, sqrt).handler;
      && h.id == o.handler.id
      && (o.handler.state == Add && now - o.handler.lastSeen >= timeAdd ==> h.state == Update && h.lastSeen == now)
      && (o.handler.state == Add && now - o.handler.lastSeen < timeAdd ==>
            h.state == n.handler.state && h.lastSeen == o.handler.lastSeen)
      && (o.handler.state == Update ==> h.state == Update && h.lastSeen == now)
      && (o.handler.state == Delete ==> h.state == Update && h.lastSeen == now)
  {
  }

  /** Each matched observation ends the cycle as `UpdateOne` of itself and its track. */
  lemma MatchedEntries(pre: seq<ItemValue>, tracked: seq<ItemValue>, d: Decision, maxID: nat, p: Params, now: real, sqrt: real -> real)
    requires Decided(d, |pre|, |tracked|)
    ensures var r := Apply(pre, tracked, d, maxID, p, now, sqrt);
      forall k :: 0 <= k < |d.pairs| ==>
        r.next[d.pairs[k].obs] == UpdateOne(pre[d.pairs[k].obs], tracked[d.pairs[k].track], now, p.timeAdd, sqrt)
  {
    ApplyAdded(pre, tracked, d, maxID, p, now, sqrt);
    ApplyUpdated(pre, tracked, d, maxID, p, now, sqrt);
  }

  /**
   * An unmatched observation opens a new track: identity `maxID + k` for the k-th entry of
   * `toAdd`, last seen `now`, nothing else changed.
   */
  lemma AddedEntries(pre: seq<ItemValue>, tracked: seq<ItemValue>, d: Decision, maxID: nat, p: Params, now: real, sqrt: real -> real)
    requires Decided(d, |pre|, |tracked|)
    ensures var r := Apply(pre, tracked, d, maxID, p, now, sqrt);
      forall k :: 0 <= k < |d.toAdd| ==>
        && d.toAdd[k] < |pre| && d.toAdd[k] !in News(d.pairs)
        && r.next[d.toAdd[k]] == pre[d.toAdd[k]].(handler := pre[d.toAdd[k]].handler.(id := Some(maxID + k), lastSeen := now))
  {
    ApplyAdded(pre, tracked, d, maxID, p, now, sqrt);
    ApplyUpdated(pre, tracked, d, maxID, p, now, sqrt);
  }

  /**
   * Two items with no part on sight in both are never matched: their distance is NaN, and
   * NaN is below no threshold.
   */
  lemma DisjointNeverMatched(batch: seq<ItemValue>, tracked: seq<ItemValue>, threshold: real, sqrt: real -> real, l: nat, c: nat)
    requires l < |batch| && c < |tracked|
    requires forall n :: n in batch[l].components ==>
      !(batch[l].components[n].name in tracked[c].components && Overlap(batch[l].components[n], tracked[c].components[batch[l].components[n].name]))
    ensures Pair(c, l) !in Decide(batch, tracked, threshold, sqrt).pairs
  {
    var d := Decide(batch, tracked, threshold, sqrt);
    var centered := CenteredAll(batch);
    DistanceWithoutSharedParts(centered[l], tracked[c], sqrt);
    assert d.distance[l][c] == NaN;
    GreedyBelowThreshold(d.distance, |tracked|, threshold);
  }
}
