/**
 * The tracker object (item_tracking/tracker.py, class Tracker).
 *
 * `Tracker` keeps the observations submitted for the next cycle, the items tracked so far,
 * the last distance matrix, the identity counter and the parameters, and updates them in
 * place as the source does. Each step of a cycle is a method proved to produce the value the
 * matching function of module Lifecycle describes, and `UpdateTracking` is proved to carry out
 * exactly `Cycle` while keeping the tracker's invariant: distinct objects, and distinct
 * identities below the counter on every tracked item.
 */
module Tracking {
  import opened Optional
  import opened Cells
  import opened Components
  import opened Items
  import opened Matching
  import opened Lifecycle

  /** The snapshots of a list of items. */
  function Values(items: seq<Item>): (r: seq<ItemValue>)
    reads items
    ensures |r| == |items| && forall k :: 0 <= k < |items| ==> r[k] == items[k].Value()
  {
    seq(|items|, k requires 0 <= k < |items| reads items => items[k].Value())
  }

  /** The entries of `s` at the indices `idx`, in the order of `idx` (the items `deleteTracks` appends). */
  function Select<T>(s: seq<T>, idx: seq<nat>): (r: seq<T>)
    requires forall k :: 0 <= k < |idx| ==> idx[k] < |s|
    ensures |r| == |idx| && forall k :: 0 <= k < |idx| ==> r[k] == s[idx[k]]
  {
    seq(|idx|, k requires 0 <= k < |idx| => s[idx[k]])
  }

  /** No object appears twice in the list. */
  predicate DistinctObjects(s: seq<Item>) {
    forall i, j :: 0 <= i < j < |s| ==> s[i] != s[j]
  }

  /** No object is in both lists. */
  predicate Disjoint(a: seq<Item>, b: seq<Item>) {
    forall i, j :: 0 <= i < |a| && 0 <= j < |b| ==> a[i] != b[j]
  }

  class Tracker {
    var trackedItems: seq<Item>
    var newItems: seq<Item>
    var distance: Matrix
    var maxID: nat
    var thresholdDist: real
    var timeAdd: real
    var timeDel: real

    /** The parameters of a cycle. */
    function Parameters(): Params
      reads this
    {
      Params(thresholdDist, timeAdd, timeDel)
    }

    /**
     * The tracker's invariant: the two lists hold distinct objects and share none, and the
     * tracked items carry distinct identities between 1 and the counter.
     */
    ghost predicate Valid()
      reads this, trackedItems
    {
      && DistinctObjects(newItems) && DistinctObjects(trackedItems) && Disjoint(newItems, trackedItems)
      && 1 <= maxID && LiveIds(Values(trackedItems), maxID)
    }

    /** `Tracker()`: no items, no matrix, counter 1, every parameter 1. */
    constructor ()
      ensures trackedItems == [] && newItems == [] && distance == [] && maxID == 1
      ensures Parameters() == Params(1.0, 1.0, 1.0)
      ensures Valid()
    {
      trackedItems, newItems, distance := [], [], [];
      maxID := 1;
      thresholdDist, timeAdd, timeDel := 1.0, 1.0, 1.0;
    }

    /** `setParams`: each parameter supplied replaces the current one. */
    method SetParams(threshold: Option<real>, add: Option<real>, del: Option<real>)
      modifies this
      ensures Parameters() == Params(GetOr(threshold, old(thresholdDist)), GetOr(add, old(timeAdd)), GetOr(del, old(timeDel)))
      ensures trackedItems == old(trackedItems) && newItems == old(newItems)
      ensures distance == old(distance) && maxID == old(maxID)
    {
      thresholdDist := GetOr(threshold, thresholdDist);
      timeAdd := GetOr(add, timeAdd);
      timeDel := GetOr(del, timeDel);
    }

    /**
     * `addItem`: queue an item for the next cycle. Queuing an object the tracker does not
     * hold yet keeps the tracker's invariant.
     */
    method AddItem(item: Item)
      modifies this
      ensures newItems == old(newItems) + [item]
      ensures trackedItems == old(trackedItems) && distance == old(distance) && maxID == old(maxID)
      ensures Parameters() == old(Parameters())
      ensures old(Valid()) && item !in old(newItems) && item !in old(trackedItems) ==> Valid()
    {
      newItems := newItems + [item];
    }

    /** `barycenters`: every queued observation computes its barycenter. */
    method Barycenters()
      requires DistinctObjects(newItems) && Disjoint(newItems, trackedItems)
      modifies newItems
      ensures Values(newItems) == CenteredAll(old(Values(newItems)))
      ensures Values(trackedItems) == old(Values(trackedItems))
    {
      ghost var batch := Values(newItems);
      ghost var C := CenteredAll(batch);
      for l := 0 to |newItems|
        invariant forall k :: 0 <= k < |newItems| ==> newItems[k].Value() == if k < l then C[k] else batch[k]
      {
        newItems[l].SetBarycenter();
      }
    }

    /**
     * `distanceCompute`: row l of the new matrix holds the distances from observation l to
     * every tracked item; each observation keeps the weight of its last comparison.
     */
    method DistanceCompute(sqrt: real -> real)
      requires DistinctObjects(newItems) && Disjoint(newItems, trackedItems)
      modifies this, newItems
      ensures trackedItems == old(trackedItems) && newItems == old(newItems)
      ensures maxID == old(maxID) && Parameters() == old(Parameters())
      ensures distance == DistanceMatrix(old(Values(newItems)), old(Values(trackedItems)), sqrt)
      ensures Values(newItems) == Probed(old(Values(newItems)), old(Values(trackedItems)))
      ensures Values(trackedItems) == old(Values(trackedItems))
    {
      ghost var batch, tracked := Values(newItems), Values(trackedItems);
      distance := [];
      for l := 0 to |newItems|
        invariant newItems == old(newItems) && trackedItems == old(trackedItems)
        invariant maxID == old(maxID) && Parameters() == old(Parameters())
        invariant Probing(batch, tracked, sqrt, l)
      {
        ProbeStep(batch, tracked, sqrt, l);
      }
      assert distance == DistanceMatrix(batch, tracked, sqrt);
      assert Values(newItems) == Probed(batch, tracked);
    }

    /**
     * The state of `distanceCompute` after `l` rows: the first `l` rows of the matrix are
     * computed, the first `l` observations carry their new weights, the others are untouched.
     */
    ghost predicate Probing(batch: seq<ItemValue>, tracked: seq<ItemValue>, sqrt: real -> real, l: nat)
      reads this, newItems, trackedItems
    {
      && l <= |batch| && |newItems| == |batch| && Values(trackedItems) == tracked
      && |distance| == l && (forall j :: 0 <= j < l ==> distance[j] == Distances(batch[j], tracked, sqrt))
      && (forall k :: 0 <= k < |batch| ==> newItems[k].Value() == if k < l then Compared(batch[k], tracked) else batch[k])
    }

    /** One more row of `distanceCompute`. */
    method ProbeStep(ghost batch: seq<ItemValue>, ghost tracked: seq<ItemValue>, sqrt: real -> real, l: nat)
      requires Probing(batch, tracked, sqrt, l) && l < |batch|
      requires DistinctObjects(newItems) && Disjoint(newItems, trackedItems)
      modifies this, newItems[l]
      ensures newItems == old(newItems) && trackedItems == old(trackedItems)
      ensures maxID == old(maxID) && Parameters() == old(Parameters())
      ensures Probing(batch, tracked, sqrt, l + 1)
    {
      var row := DistanceRow(newItems[l], tracked, sqrt);
      distance := distance + [row];
    }

    /** The inner loop of `distanceCompute`: `item == oldItem` for every tracked item, in order. */
    method DistanceRow(item: Item, ghost tracked: seq<ItemValue>, sqrt: real -> real) returns (row: seq<Cell>)
      requires item !in trackedItems && tracked == Values(trackedItems)
      modifies item
      ensures row == Distances(old(item.Value()), tracked, sqrt)
      ensures item.Value() == Compared(old(item.Value()), tracked)
    {
      ghost var v := item.Value();
      row := [];
      for c := 0 to |trackedItems|
        invariant |row| == c && forall i :: 0 <= i < c ==> row[i] == Distance(v, trackedItems[i].Value(), sqrt)
        invariant item.Value() == if c == 0 then v else v.(distWeight := OverlapWeight(v, trackedItems[c - 1].Value()))
      {
        var d := item.DistanceTo(trackedItems[c], sqrt);
        row := row + [d];
      }
    }

    /** Row `l` of the distance matrix is overwritten with NaN, one entry at a time. */
    method InvalidateRow(l: nat)
      requires l < |distance| && Rect(distance, |trackedItems|)
      modifies this
      ensures distance == NanRow(old(distance), l)
      ensures trackedItems == old(trackedItems) && newItems == old(newItems)
      ensures maxID == old(maxID) && Parameters() == old(Parameters())
    {
      ghost var M := distance;
      for i := 0 to |trackedItems|
        invariant trackedItems == old(trackedItems) && newItems == old(newItems)
        invariant maxID == old(maxID) && Parameters() == old(Parameters())
        invariant |distance| == |M| && forall j :: 0 <= j < |M| && j != l ==> distance[j] == M[j]
        invariant |distance[l]| == |M[l]| && forall k :: 0 <= k < |M[l]| ==> distance[l][k] == if k < i then NaN else M[l][k]
      {
        distance := distance[l := distance[l][i := NaN]];
      }
      assert distance[l] == seq(|M[l]|, i => NaN);
    }

    /** Column `c` of the distance matrix is overwritten with NaN, one row at a time. */
    method InvalidateColumn(c: nat)
      requires |distance| == |newItems| && Rect(distance, |trackedItems|) && c < |trackedItems|
      modifies this
      ensures distance == NanColumn(old(distance), c)
      ensures trackedItems == old(trackedItems) && newItems == old(newItems)
      ensures maxID == old(maxID) && Parameters() == old(Parameters())
    {
      ghost var M := distance;
      for j := 0 to |newItems|
        invariant trackedItems == old(trackedItems) && newItems == old(newItems)
        invariant maxID == old(maxID) && Parameters() == old(Parameters())
        invariant |distance| == |M| && forall k :: 0 <= k < |M| ==> distance[k] == if k < j then M[k][c := NaN] else M[k]
      {
        distance := distance[j := distance[j][c := NaN]];
      }
    }

    /**
     * The state of `matchingDistanceDecider` after the pairs `used` of the original
     * matrix `D` have been accepted: the matrix is masked by them, `mini` is its smallest
     * entry, `checkedOld`/`checkedNew` are their two sides, and the greedy matching of `D` goes
     * on from them.
     */
    ghost predicate Scanning(D: Matrix, used: seq<Pair>, checkedOld: seq<nat>, checkedNew: seq<nat>, mini: Cell)
      reads this
    {
      && |D| == |newItems| && Rect(D, |trackedItems|) && Injective(used, |D|, |trackedItems|)
      && distance == Masked(D, used) && mini == NanMin(distance)
      && checkedOld == Olds(used) && checkedNew == News(used)
      && GreedyFrom(D, |trackedItems|, thresholdDist, used) == GreedyFrom(D, |trackedItems|, thresholdDist, [])
    }

    /**
     * One turn of the `while mini < thresholdDist` loop: the first position of the smallest
     * entry is accepted, its row and column are overwritten with NaN, and the minimum is
     * taken again.
     */
    method AcceptNext(ghost D: Matrix, used: seq<Pair>, checkedOld: seq<nat>, checkedNew: seq<nat>, mini: Cell)
      returns (used': seq<Pair>, checkedOld': seq<nat>, checkedNew': seq<nat>, mini': Cell)
      requires Scanning(D, used, checkedOld, checkedNew, mini) && Below(mini, thresholdDist)
      modifies this
      ensures trackedItems == old(trackedItems) && newItems == old(newItems)
      ensures maxID == old(maxID) && Parameters() == old(Parameters())
      ensures Scanning(D, used', checkedOld', checkedNew', mini')
      ensures |used| < |used'| <= |D|
    {
      var at := ArgMin(distance).value;
      var l, c := at.row, at.col;
      GreedyAccept(D, |trackedItems|, thresholdDist, used);
      used' := used + [Pair(c, l)];
      checkedOld' := checkedOld + [c];
      checkedNew' := checkedNew + [l];
      InvalidateRow(l);
      InvalidateColumn(c);
      mini' := NanMin(distance);
    }

    /**
     * The `while mini < thresholdDist` loop of `matchingDistanceDecider`: the pairs accepted
     * are those of the greedy matching, the matrix is left masked by them, and `checkedOld`,
     * `checkedNew` list their tracked and new sides.
     */
    method AcceptPairs(ghost D: Matrix) returns (toUpdate: seq<Pair>, checkedOld: seq<nat>, checkedNew: seq<nat>)
      requires distance == D && |D| == |newItems| && Rect(D, |trackedItems|)
      modifies this
      ensures trackedItems == old(trackedItems) && newItems == old(newItems)
      ensures maxID == old(maxID) && Parameters() == old(Parameters())
      ensures toUpdate == GreedyFrom(D, |trackedItems|, thresholdDist, [])
      ensures distance == Masked(D, toUpdate)
      ensures checkedOld == Olds(toUpdate) && checkedNew == News(toUpdate)
    {
      toUpdate, checkedOld, checkedNew := [], [], [];
      MaskedNothing(D);
      var mini := NanMin(distance);
      while Below(mini, thresholdDist)
        invariant trackedItems == old(trackedItems) && newItems == old(newItems)
        invariant maxID == old(maxID) && Parameters() == old(Parameters())
        invariant Scanning(D, toUpdate, checkedOld, checkedNew, mini)
        invariant |toUpdate| <= |D|
        decreases |D| - |toUpdate|
      {
        toUpdate, checkedOld, checkedNew, mini := AcceptNext(D, toUpdate, checkedOld, checkedNew, mini);
      }
      GreedyStops(D, |trackedItems|, thresholdDist, toUpdate);
    }

    /**
     * `matchingDistanceDecider`: the greedy matching on the distance matrix, and the indices
     * left unmatched on either side. The matrix is left with the rows and columns of the
     * accepted pairs overwritten with NaN.
     */
    method MatchingDistanceDecider() returns (toAdd: seq<nat>, toUpdate: seq<Pair>, toDelete: seq<nat>)
      requires |distance| == |newItems| && Rect(distance, |trackedItems|)
      modifies this
      ensures trackedItems == old(trackedItems) && newItems == old(newItems)
      ensures maxID == old(maxID) && Parameters() == old(Parameters())
      ensures toUpdate == Greedy(old(distance), |trackedItems|, thresholdDist)
      ensures toAdd == Unmatched(|newItems|, News(toUpdate)) && toDelete == Unmatched(|trackedItems|, Olds(toUpdate))
      ensures distance == LeftDistance(old(distance), |trackedItems|, thresholdDist)
      ensures Values(newItems) == old(Values(newItems)) && Values(trackedItems) == old(Values(trackedItems))
    {
      var checkedOld: seq<nat>, checkedNew: seq<nat> := [], [];
      toUpdate := [];
      var lSize, cSize := |newItems|, |trackedItems|;
      // `lSize * cSize != 0`, for sizes that are never negative
      if lSize != 0 && cSize != 0 {
        toUpdate, checkedOld, checkedNew := AcceptPairs(distance);
      }
      toDelete := Unmatched(cSize, checkedOld);
      toAdd := Unmatched(lSize, checkedNew);
    }
  
    /** `addTracks`: the k-th unmatched observation receives identity `maxID + k` and is stamped `now`. */
    method AddTracks(toAdd: seq<nat>, now: real)
      requires forall k :: 0 <= k < |toAdd| ==> toAdd[k] < |newItems|
      requires DistinctObjects(newItems) && Disjoint(newItems, trackedItems)
      modifies this, newItems
      ensures trackedItems == old(trackedItems) && newItems == old(newItems)
      ensures distance == old(distance) && Parameters() == old(Parameters())
      ensures maxID == old(maxID) + |toAdd|
      ensures Values(newItems) == AddedOver(old(Values(newItems)), toAdd, old(maxID), now)
      ensures Values(trackedItems) == old(Values(trackedItems))
    {
      ghost var batch, first := Values(newItems), maxID;
      for k := 0 to |toAdd|
        invariant trackedItems == old(trackedItems) && newItems == old(newItems)
        invariant distance == old(distance) && Parameters() == old(Parameters())
        invariant maxID == first + k
        invariant forall j :: 0 <= j < |newItems| ==> newItems[j].Value() == AddedOver(batch, toAdd[..k], first, now)[j]
      {
        assert toAdd[..k + 1][..k] == toAdd[..k];
        newItems[toAdd[k]].SetID(maxID);
        newItems[toAdd[k]].SetTime(now);
        maxID := maxID + 1;
      }
      assert toAdd[..|toAdd|] == toAdd;
    }

    /**
     * One turn of `updateTracks`: observation `l` takes the lifecycle step decided by the state
     * of track `c`, then the track is merged into it (`old > new`).
     */
    method UpdatePair(c: nat, l: nat, now: real, sqrt: real -> real)
      requires l < |newItems| && c < |trackedItems|
      requires DistinctObjects(newItems) && Disjoint(newItems, trackedItems)
      modifies newItems[l]
      ensures Values(newItems) == old(Values(newItems))[l := UpdateOne(old(newItems[l].Value()), old(trackedItems[c].Value()), now, timeAdd, sqrt)]
      ensures Values(trackedItems) == old(Values(trackedItems))
    {
      var o, n := trackedItems[c], newItems[l];
      if o.GetState() == Add {
        if now - o.GetTime() >= timeAdd {
          n.SetTime(now);
          n.SetState(Update);
        } else {
          n.SetTime(o.GetTime());
        }
      } else if o.GetState() == Update {
        n.SetTime(now);
        n.SetState(Update);
      } else {
        n.SetState(Update);
        n.SetTime(now);
      }
      o.MergeInto(n, sqrt);
    }

    /** `updateTracks`: `UpdatePair` for each pair, in order. */
    method UpdateTracks(toUpdate: seq<Pair>, now: real, sqrt: real -> real)
      requires forall k :: 0 <= k < |toUpdate| ==> toUpdate[k].obs < |newItems| && toUpdate[k].track < |trackedItems|
      requires DistinctObjects(newItems) && Disjoint(newItems, trackedItems)
      modifies newItems
      ensures Values(newItems) == UpdatedOver(old(Values(newItems)), old(Values(trackedItems)), toUpdate, now, timeAdd, sqrt)
      ensures Values(trackedItems) == old(Values(trackedItems))
    {
      ghost var batch, tracked := Values(newItems), Values(trackedItems);
      for k := 0 to |toUpdate|
        invariant Values(newItems) == UpdatedOver(batch, tracked, toUpdate[..k], now, timeAdd, sqrt)
        invariant Values(trackedItems) == tracked
      {
        UpdatedSnoc(batch, tracked, toUpdate, k, now, timeAdd, sqrt);
        UpdatePair(toUpdate[k].track, toUpdate[k].obs, now, sqrt);
      }
      assert toUpdate[..|toUpdate|] == toUpdate;
    }

    /** One turn of `deleteTracks`, on the tracked item at index `c`. */
    method DeleteOne(c: nat, now: real)
      requires c < |trackedItems|
      modifies this, trackedItems[c]
      ensures trackedItems == old(trackedItems) && distance == old(distance)
      ensures maxID == old(maxID) && Parameters() == old(Parameters())
      ensures trackedItems[c].Value() == Retire(old(trackedItems[c].Value()))
      ensures newItems == old(newItems) + if Requeued(old(trackedItems[c].Value()), now, timeDel) then [trackedItems[c]] else []
    {
      var delItem := trackedItems[c];
      if delItem.GetState() == Add {
        delItem.SetState(Delete);
        delItem.status := Unknown;
      } else if delItem.GetState() == Update {
        delItem.SetState(Delete);
        delItem.status := Unknown;
        AddItem(delItem);
      } else {
        if now - delItem.GetTime() < timeDel {
          AddItem(delItem);
        }
      }
    }

    /**
     * The state of `deleteTracks` once the indices `done` have been handled: the tracked items
     * hold the retired values and the items requeued so far follow the `queued` ones, whose
     * values `batch` are untouched.
     */
    ghost predicate Deleting(tracked: seq<ItemValue>, queued: seq<Item>, batch: seq<ItemValue>, done: seq<nat>, now: real)
      reads this, trackedItems, queued
    {
      && |trackedItems| == |tracked|
      && (forall k :: 0 <= k < |done| ==> done[k] < |tracked|)
      && var r := DeletedOver(tracked, done, now, timeDel);
        && Values(trackedItems) == r.items
        && newItems == queued + Select(trackedItems, r.requeued)
        && Values(queued) == batch
    }

    /** `DeleteOne` on index `c`, as one more step of `deleteTracks`. */
    method DeleteStep(ghost tracked: seq<ItemValue>, ghost queued: seq<Item>, ghost batch: seq<ItemValue>, ghost done: seq<nat>, c: nat, now: real)
      requires Deleting(tracked, queued, batch, done, now) && c < |trackedItems|
      requires DistinctObjects(trackedItems) && Disjoint(queued, trackedItems)
      modifies this, trackedItems[c]
      ensures trackedItems == old(trackedItems) && distance == old(distance)
      ensures maxID == old(maxID) && Parameters() == old(Parameters())
      ensures Deleting(tracked, queued, batch, done + [c], now)
    {
      assert (done + [c])[..|done|] == done;
      SelectSnoc(trackedItems, DeletedOver(tracked, done, now, timeDel).requeued, c);
      DeleteOne(c, now);
    }

    /**
     * `deleteTracks`: each unmatched track, in order, is retired, and queued again for the next
     * cycle when it was confirmed (UPDATE) or has been deleted for less than `time_del`.
     */
    method DeleteTracks(toDelete: seq<nat>, now: real)
      requires forall k :: 0 <= k < |toDelete| ==> toDelete[k] < |trackedItems|
      requires DistinctObjects(trackedItems) && Disjoint(newItems, trackedItems)
      modifies this, trackedItems
      ensures trackedItems == old(trackedItems) && distance == old(distance)
      ensures maxID == old(maxID) && Parameters() == old(Parameters())
      ensures var r := DeletedOver(old(Values(trackedItems)), toDelete, now, timeDel);
        && Values(trackedItems) == r.items
        && newItems == old(newItems) + Select(trackedItems, r.requeued)
      ensures Values(old(newItems)) == old(Values(newItems))
    {
      ghost var tracked, queued, batch := Values(trackedItems), newItems, Values(newItems);
      assert newItems == queued + Select(trackedItems, []);
      for k := 0 to |toDelete|
        invariant trackedItems == old(trackedItems) && distance == old(distance)
        invariant maxID == old(maxID) && Parameters() == old(Parameters())
        invariant Deleting(tracked, queued, batch, toDelete[..k], now)
      {
        assert toDelete[..k + 1] == toDelete[..k] + [toDelete[k]];
        DeleteStep(tracked, queued, batch, toDelete[..k], toDelete[k], now);
      }
      assert toDelete[..|toDelete|] == toDelete;
    }

    /**
     * The first half of `updateTracking`: barycenters, distances and the matching. The
     * observations become the prepared ones, and the decision is the one `Decide` describes.
     */
    method Prepare(sqrt: real -> real) returns (toAdd: seq<nat>, toUpdate: seq<Pair>, toDelete: seq<nat>)
      requires DistinctObjects(newItems) && Disjoint(newItems, trackedItems)
      modifies this, newItems
      ensures trackedItems == old(trackedItems) && newItems == old(newItems)
      ensures maxID == old(maxID) && Parameters() == old(Parameters())
      ensures Values(trackedItems) == old(Values(trackedItems))
      ensures Values(newItems) == Prepared(old(Values(newItems)), old(Values(trackedItems)))
      ensures var d := Decide(old(Values(newItems)), old(Values(trackedItems)), thresholdDist, sqrt);
        && d.pairs == toUpdate && d.toAdd == toAdd && d.toDelete == toDelete
        && distance == LeftDistance(d.distance, |trackedItems|, thresholdDist)
    {
      Barycenters();
      DistanceCompute(sqrt);
      toAdd, toUpdate, toDelete := MatchingDistanceDecider();
    }

    /** `addTracks` then `updateTracks`: the observations take their identities, then their tracks' steps. */
    method Refresh(toAdd: seq<nat>, toUpdate: seq<Pair>, now: real, sqrt: real -> real)
      requires forall k :: 0 <= k < |toAdd| ==> toAdd[k] < |newItems|
      requires forall k :: 0 <= k < |toUpdate| ==> toUpdate[k].obs < |newItems| && toUpdate[k].track < |trackedItems|
      requires DistinctObjects(newItems) && Disjoint(newItems, trackedItems)
      modifies this, newItems
      ensures trackedItems == old(trackedItems) && newItems == old(newItems)
      ensures distance == old(distance) && Parameters() == old(Parameters())
      ensures maxID == old(maxID) + |toAdd|
      ensures Values(newItems) == UpdatedOver(AddedOver(old(Values(newItems)), toAdd, old(maxID), now), old(Values(trackedItems)), toUpdate, now, timeAdd, sqrt)
      ensures Values(trackedItems) == old(Values(trackedItems))
    {
      AddTracks(toAdd, now);
      UpdateTracks(toUpdate, now, sqrt);
    }

    /**
     * The second half of `updateTracking`: `addTracks`, `updateTracks` and `deleteTracks`,
     * then the observations followed by the requeued tracks become the tracked items and the
     * queue is emptied.
     */
    method Commit(toAdd: seq<nat>, toUpdate: seq<Pair>, toDelete: seq<nat>, now: real, sqrt: real -> real)
      requires forall k :: 0 <= k < |toAdd| ==> toAdd[k] < |newItems|
      requires forall k :: 0 <= k < |toUpdate| ==> toUpdate[k].obs < |newItems| && toUpdate[k].track < |trackedItems|
      requires forall k :: 0 <= k < |toDelete| ==> toDelete[k] < |trackedItems|
      requires DistinctObjects(newItems) && DistinctObjects(trackedItems) && Disjoint(newItems, trackedItems)
      modifies this, newItems, trackedItems
      ensures var batch := UpdatedOver(AddedOver(old(Values(newItems)), toAdd, old(maxID), now), old(Values(trackedItems)), toUpdate, now, timeAdd, sqrt);
        var deletion := DeletedOver(old(Values(trackedItems)), toDelete, now, timeDel);
        && Values(trackedItems) == batch + Select(deletion.items, deletion.requeued)
        && trackedItems == old(newItems) + Select(old(trackedItems), deletion.requeued)
      ensures maxID == old(maxID) + |toAdd| && newItems == []
      ensures distance == old(distance) && Parameters() == old(Parameters())
      ensures Increasing(toDelete) ==> DistinctObjects(trackedItems)
    {
      ghost var N, T := newItems, trackedItems;
      ghost var tracked := Values(trackedItems);
      Refresh(toAdd, toUpdate, now, sqrt);
      DeleteTracks(toDelete, now);
      ghost var rq := DeletedOver(tracked, toDelete, now, timeDel).requeued;
      ValuesSelect(N, T, rq);
      if Increasing(toDelete) {
        RequeuedDistinct(N, T, tracked, toDelete, now, timeDel);
      }
      trackedItems := newItems;
      newItems := [];
    }

    /**
     * `updateTracking`: one whole cycle. The tracked items become exactly the items `Cycle`
     * describes (the batch followed by the requeued tracks, as objects), the queue is emptied,
     * and the tracker's invariant is kept, so that identities stay distinct and below the
     * counter from one cycle to the next.
     */
    method UpdateTracking(now: real, sqrt: real -> real)
      requires Valid()
      modifies this, newItems, trackedItems
      ensures var r := Cycle(old(Values(newItems)), old(Values(trackedItems)), old(maxID), old(Parameters()), now, sqrt);
        && Values(trackedItems) == r.next && maxID == r.maxID
        && trackedItems == old(newItems) + Select(old(trackedItems), r.deletion.requeued)
        && distance == LeftDistance(r.decision.distance, |old(trackedItems)|, old(thresholdDist))
      ensures newItems == [] && Parameters() == old(Parameters())
      ensures Valid()
    {
      ghost var batch, tracked := Values(newItems), Values(trackedItems);
      var toAdd, toUpdate, toDelete := Prepare(sqrt);
      ghost var d := Decide(batch, tracked, thresholdDist, sqrt);
      ghost var pre := Prepared(batch, tracked);
      Commit(toAdd, toUpdate, toDelete, now, sqrt);
      CycleSplit(batch, tracked, old(maxID), Parameters(), now, sqrt);
    }
  }

  /**
   * The parts of a cycle's result: the observations after `addTracks` and `updateTracks`,
   * the result of `deleteTracks`, and the next cycle's items, the observations followed by
   * the requeued tracks.
   */
  lemma ApplySplit(pre: seq<ItemValue>, tracked: seq<ItemValue>, d: Decision, maxID: nat, p: Params, now: real, sqrt: real -> real)
    requires Decided(d, |pre|, |tracked|)
    ensures var r := Apply(pre, tracked, d, maxID, p, now, sqrt);
      && r.batch == UpdatedOver(AddedOver(pre, d.toAdd, maxID, now), tracked, d.pairs, now, p.timeAdd, sqrt)
      && r.deletion == DeletedOver(tracked, d.toDelete, now, p.timeDel)
      && r.maxID == maxID + |d.toAdd|
      && r.next == r.batch + Select(r.deletion.items, r.deletion.requeued)
  {
    var r := Apply(pre, tracked, d, maxID, p, now, sqrt);
    assert r.next == r.batch + Select(r.deletion.items, r.deletion.requeued);
  }

  /** `Cycle` as the methods of a cycle compute it, and the identities it keeps. */
  lemma CycleSplit(batch: seq<ItemValue>, tracked: seq<ItemValue>, maxID: nat, p: Params, now: real, sqrt: real -> real)
    requires 1 <= maxID && LiveIds(tracked, maxID)
    ensures var r := Cycle(batch, tracked, maxID, p, now, sqrt);
      var d := Decide(batch, tracked, p.thresholdDist, sqrt);
      var deletion := DeletedOver(tracked, d.toDelete, now, p.timeDel);
      && r.decision == d
      && r.next == UpdatedOver(AddedOver(Prepared(batch, tracked), d.toAdd, maxID, now), tracked, d.pairs, now, p.timeAdd, sqrt)
                   + Select(deletion.items, deletion.requeued)
      && r.deletion == deletion
      && r.maxID == maxID + |d.toAdd|
      && LiveIds(r.next, r.maxID)
  {
    var d := Decide(batch, tracked, p.thresholdDist, sqrt);
    ApplySplit(Prepared(batch, tracked), tracked, d, maxID, p, now, sqrt);
    ApplyKeepsIdsDistinct(Prepared(batch, tracked), tracked, d, maxID, p, now, sqrt);
  }

  /** The snapshots of a batch followed by selected tracked items. */
  lemma ValuesSelect(a: seq<Item>, s: seq<Item>, idx: seq<nat>)
    requires forall k :: 0 <= k < |idx| ==> idx[k] < |s|
    ensures Values(a + Select(s, idx)) == Values(a) + Select(Values(s), idx)
  {
  }

  /** Selecting one more index appends the entry at that index. */
  lemma SelectSnoc<T>(s: seq<T>, idx: seq<nat>, i: nat)
    requires forall k :: 0 <= k < |idx| ==> idx[k] < |s|
    requires i < |s|
    ensures Select(s, idx + [i]) == Select(s, idx) + [s[i]]
  {
    assert Select(s, idx + [i]) == Select(s, idx) + [s[i]];
  }

  /** Distinct objects at increasing indices are distinct objects. */
  lemma SelectDistinct(s: seq<Item>, idx: seq<nat>)
    requires forall k :: 0 <= k < |idx| ==> idx[k] < |s|
    requires DistinctObjects(s) && Increasing(idx)
    ensures DistinctObjects(Select(s, idx))
  {
  }

  /** Objects selected from a list disjoint from `a` are not in `a`. */
  lemma SelectDisjoint(a: seq<Item>, s: seq<Item>, idx: seq<nat>)
    requires forall k :: 0 <= k < |idx| ==> idx[k] < |s|
    requires Disjoint(a, s)
    ensures Disjoint(a, Select(s, idx))
  {
  }

  /** Two lists of distinct objects that share none make one list of distinct objects. */
  /** The observations followed by the requeued tracks are distinct objects when `toDelete` is increasing. */
  lemma RequeuedDistinct(N: seq<Item>, T: seq<Item>, tracked: seq<ItemValue>, toDelete: seq<nat>, now: real, timeDel: real)
    requires |tracked| == |T| && forall k :: 0 <= k < |toDelete| ==> toDelete[k] < |tracked|
    requires DistinctObjects(N) && DistinctObjects(T) && Disjoint(N, T) && Increasing(toDelete)
    ensures var rq := DeletedOver(tracked, toDelete, now, timeDel).requeued;
      DistinctObjects(N + Select(T, rq))
  {
    var rq := DeletedOver(tracked, toDelete, now, timeDel).requeued;
    DeletedIncreasing(tracked, toDelete, now, timeDel);
    SelectDistinct(T, rq);
    SelectDisjoint(N, T, rq);
    ConcatDistinct(N, Select(T, rq));
  }

  lemma ConcatDistinct(a: seq<Item>, b: seq<Item>)
    requires DistinctObjects(a) && DistinctObjects(b) && Disjoint(a, b)
    ensures DistinctObjects(a + b)
  {
  }
}
