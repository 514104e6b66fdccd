/**
 * Items and their handler record (item_tracking/item.py, classes ItemHandler and Item).
 *
 * An item holds its components in a dictionary; Python dictionaries iterate in insertion
 * order, so the model keeps that order explicitly (`order`) beside the map (`components`).
 * The pure functions below describe each operation on a snapshot `ItemValue`; the class
 * `Item` updates its fields in place, as the source does, and each of its methods is proved
 * to leave exactly the snapshot the matching function describes.
 */
module Items {
  import opened Optional
  import opened Cells
  import opened Components

  /** ItemHandler.ADD = 1, UPDATE = 2, DELETE = 3. */
  datatype TrackState = Add | Update | Delete

  /** The ItemHandler record: identity, last time seen and lifecycle state. */
  datatype Handler = Handler(id: Option<nat>, lastSeen: real, state: TrackState)

  /** Every attribute of an Item the core reads or writes. */
  datatype ItemValue = ItemValue(
    name: string,
    x: Option<real>, y: Option<real>, z: Option<real>,
    distWeight: real, baryWeight: real, speedWeight: real,
    speed: Option<real>,
    status: Status,
    handler: Handler,
    order: seq<string>,
    components: map<string, Component>)
  {
    /**
     * The dictionary invariant: `order` lists every key once, in insertion order, and each
     * component is stored under its own name.
     */
    ghost predicate WellFormed() {
      Dictionary(order, components)
    }
  }

  /**
   * The dictionary invariant on its own: `order` lists every key once, and each component is
   * stored under its own name.
   */
  ghost predicate Dictionary(order: seq<string>, components: map<string, Component>) {
    && (forall i, j :: 0 <= i < j < |order| ==> order[i] != order[j])
    && (forall n :: n in components <==> n in order)
    && (forall n :: n in components ==> components[n].name == n)
  }

  /** A freshly constructed Item: `Item(name)` with its handler created at time `seen`. */
  function Blank(name: string, seen: real): (v: ItemValue)
    ensures v.WellFormed() && v.components == map[] && v.order == []
    ensures v.handler == Handler(None, seen, Add) && v.status == OnSight
  {
    ItemValue(name, None, None, None, 1.0, 1.0, 1.0, None, OnSight, Handler(None, seen, Add), [], map[])
  }

  // ---------------------------------------------------------------------------------------
  // Sums over the dictionary, in iteration order

  /** The sum of `term` over `names`, accumulated front to back as the source's loops do. */
  function Sum(names: seq<string>, term: string -> real): real
  {
    if names == [] then 0.0 else Sum(names[..|names| - 1], term) + term(names[|names| - 1])
  }

  lemma SumStep(names: seq<string>, i: nat, term: string -> real)
    requires i < |names|
    ensures Sum(names[..i + 1], term) == Sum(names[..i], term) + term(names[i])
  {
    assert names[..i + 1][..i] == names[..i];
  }

  /** A component enters the barycenter when it is on sight and its position is fully set. */
  predicate InBarycenter(c: Component) {
    c.status == OnSight && c.Positioned()
  }

  /** What `setBarycenter` accumulates: the weight and the three coordinates. */
  datatype BaryQuantity = BaryWeight | PosX | PosY | PosZ

  function BaryPart(c: Component, q: BaryQuantity): real
    requires c.Positioned()
  {
    match q
    case BaryWeight => c.baryWeight
    case PosX => c.x.value
    case PosY => c.y.value
    case PosZ => c.z.value
  }

  function BaryTerm(cs: map<string, Component>, q: BaryQuantity): string -> real {
    n => if n in cs && InBarycenter(cs[n]) then BaryPart(cs[n], q) else 0.0
  }

  /** A component enters the item's speed when it is on sight and has a speed. */
  predicate InSpeed(c: Component) {
    c.status == OnSight && c.speed.Some?
  }

  function SpeedTerm(cs: map<string, Component>, weight: bool): string -> real {
    n => if n in cs && InSpeed(cs[n]) then (if weight then cs[n].speedWeight else cs[n].speed.value) else 0.0
  }

  /** Both copies of a part are on sight and fully positioned, so `dist` applies to them. */
  predicate Overlap(a: Component, b: Component) {
    a.status == OnSight && b.status == OnSight && a.Positioned() && b.Positioned()
  }

  /** The part of the item-to-item distance contributed by the component stored under `n`. */
  function DistTerm(cs: map<string, Component>, other: map<string, Component>, sqrt: real -> real): string -> real {
    n => if n in cs && cs[n].name in other && Overlap(cs[n], other[cs[n].name])
         then cs[n].Dist(other[cs[n].name], sqrt) else 0.0
  }

  function DistWeightTerm(cs: map<string, Component>, other: map<string, Component>): string -> real {
    n => if n in cs && cs[n].name in other && Overlap(cs[n], other[cs[n].name])
         then cs[n].distWeight else 0.0
  }

  // ---------------------------------------------------------------------------------------
  // The operations of Item, on snapshots

  /** `addComponent(name, **axes)`: upsert the component `name` and apply the partial update. */
  function Upserted(v: ItemValue, name: string, a: Axes): (r: ItemValue)
    ensures r.components.Keys == v.components.Keys + {name}
    ensures forall n :: n in v.components && n != name ==> r.components[n] == v.components[n]
    ensures name in v.components ==> r.components[name] == v.components[name].FullUpdate(a)
    ensures name !in v.components ==> r.components[name] == Fresh(name).FullUpdate(a)
    ensures r.(components := v.components, order := v.order) == v
    ensures v.WellFormed() ==> r.WellFormed()
  {
    var c := if name in v.components then v.components[name] else Fresh(name);
    v.(components := v.components[name := c.FullUpdate(a)],
       order := if name in v.components then v.order else v.order + [name])
  }

  /**
   * `setBarycenter`: with at least one component, the weight is the sum of `baryWeight` over
   * the components that enter, and x, y, z are the sums of their coordinates divided by that
   * weight (left undivided when the weight is zero). An empty item is left alone.
   */
  function Centered(v: ItemValue): (r: ItemValue)
    ensures r.(x := v.x, y := v.y, z := v.z, baryWeight := v.baryWeight) == v
    ensures |v.components| > 0 ==> r.x.Some? && r.y.Some? && r.z.Some?
  {
    if |v.components| == 0 then v
    else
      var w := Sum(v.order, BaryTerm(v.components, BaryWeight));
      var sx := Sum(v.order, BaryTerm(v.components, PosX));
      var sy := Sum(v.order, BaryTerm(v.components, PosY));
      var sz := Sum(v.order, BaryTerm(v.components, PosZ));
      if w != 0.0 then v.(baryWeight := w, x := Some(sx / w), y := Some(sy / w), z := Some(sz / w))
      else v.(baryWeight := w, x := Some(sx), y := Some(sy), z := Some(sz))
  }

  /** `setSpeed` divides by the summed weight; the source raises when that sum is zero. */
  predicate SpeedDefined(v: ItemValue) {
    |v.components| == 0 || Sum(v.order, SpeedTerm(v.components, true)) != 0.0
  }

  /**
   * `setSpeed`: with at least one component, the speed is the sum of the speeds of the on-sight
   * components that have one, divided by the sum of their `speedWeight`.
   */
  function WithSpeed(v: ItemValue): (r: ItemValue)
    requires SpeedDefined(v)
    ensures r.(speed := v.speed, speedWeight := v.speedWeight) == v
    ensures |v.components| > 0 ==> r.speedWeight == Sum(v.order, SpeedTerm(v.components, true)) && r.speed.Some?
    ensures |v.components| > 0 ==> r.speed.value * r.speedWeight == Sum(v.order, SpeedTerm(v.components, false))
  {
    if |v.components| == 0 then v
    else
      var w := Sum(v.order, SpeedTerm(v.components, true));
      v.(speedWeight := w, speed := Some(Sum(v.order, SpeedTerm(v.components, false)) / w))
  }

  /** The weight `__eq__` leaves in `self.distWeight`: `distWeight` summed over the shared parts. */
  function OverlapWeight(v: ItemValue, w: ItemValue): real {
    Sum(v.order, DistWeightTerm(v.components, w.components))
  }

  /**
   * `__eq__`: the distance from `v` to `w`, the sum of `dist` over the parts both hold on
   * sight divided by `v`'s weights of those parts; NaN exactly when that weight is zero.
   */
  function Distance(v: ItemValue, w: ItemValue, sqrt: real -> real): (d: Cell)
    ensures d.NaN? <==> OverlapWeight(v, w) == 0.0
    ensures d.Finite? ==> d.value * OverlapWeight(v, w) == Sum(v.order, DistTerm(v.components, w.components, sqrt))
  {
    var weight := OverlapWeight(v, w);
    if weight != 0.0 then Finite(Sum(v.order, DistTerm(v.components, w.components, sqrt)) / weight) else NaN
  }

  /**
   * The speed `__lt__` gives a part seen in both items: the distance travelled over the
   * elapsed time when the predecessor's copy was on sight; no speed otherwise, and none when
   * a position is incomplete or no time has elapsed.
   */
  function MergedSpeed(cur: Component, prev: Component, dt: real, sqrt: real -> real): (s: Option<real>)
    ensures prev.status != OnSight ==> s.None?
    ensures s.Some? ==> prev.status == OnSight && cur.Positioned() && prev.Positioned() && dt != 0.0
    ensures s.Some? ==> s.value * dt == cur.Dist(prev, sqrt)
    ensures prev.status == OnSight && cur.Positioned() && prev.Positioned() && dt != 0.0 ==> s.Some?
  {
    if prev.status != OnSight then None
    else if cur.Positioned() && prev.Positioned() && dt != 0.0 then Some(cur.Dist(prev, sqrt) / dt)
    else None
  }

  /** One step of the merge loop: the predecessor's part `n` taken into `acc`. */
  function MergeStep(acc: ItemValue, src: map<string, Component>, n: string, dt: real, sqrt: real -> real): ItemValue {
    if n !in src then acc
    else if n in acc.components then
      acc.(components := acc.components[n := acc.components[n].(speed := MergedSpeed(acc.components[n], src[n], dt, sqrt))])
    else
      acc.(components := acc.components[n := src[n].(status := Unknown)], order := acc.order + [n])
  }

  /** The merge loop over the predecessor's parts `names`, in its dictionary order. */
  function MergeOver(acc: ItemValue, src: map<string, Component>, names: seq<string>, dt: real, sqrt: real -> real): (r: ItemValue)
    ensures r.(components := acc.components, order := acc.order) == acc
  {
    if names == [] then acc
    else MergeStep(MergeOver(acc, src, names[..|names| - 1], dt, sqrt), src, names[|names| - 1], dt, sqrt)
  }

  /**
   * `new < old` (`__lt__`): the history of `w`, the matched predecessor, carried into `v`: its
   * identity, the speed of every part seen in both, and every part `v` lacks, as UNKNOWN.
   */
  function Merged(v: ItemValue, w: ItemValue, sqrt: real -> real): (r: ItemValue)
    ensures r.handler == v.handler.(id := w.handler.id)
    ensures r.(components := v.components, order := v.order, handler := v.handler) == v
  {
    var m := MergeOver(v, w.components, w.order, v.handler.lastSeen - w.handler.lastSeen, sqrt);
    m.(handler := m.handler.(id := w.handler.id))
  }

  /** `new < old` as the source writes it: the parts are merged, the identity is not copied. */
  function MergedAsWritten(v: ItemValue, w: ItemValue, sqrt: real -> real): (r: ItemValue)
    ensures r == Merged(v, w, sqrt).(handler := v.handler)
  {
    MergeOver(v, w.components, w.order, v.handler.lastSeen - w.handler.lastSeen, sqrt)
  }

  // ---------------------------------------------------------------------------------------
  // Lemmas on sums

  lemma {:induction false} SumOfZeros(names: seq<string>, term: string -> real)
    requires forall k :: 0 <= k < |names| ==> term(names[k]) == 0.0
    ensures Sum(names, term) == 0.0
  {
    if names != [] {
      SumOfZeros(names[..|names| - 1], term);
    }
  }

  lemma {:induction false} SumNonNegative(names: seq<string>, term: string -> real)
    requires forall k :: 0 <= k < |names| ==> term(names[k]) >= 0.0
    ensures Sum(names, term) >= 0.0
  {
    if names != [] {
      SumNonNegative(names[..|names| - 1], term);
    }
  }

  lemma {:induction false} SumPositive(names: seq<string>, term: string -> real, k: nat)
    requires forall j :: 0 <= j < |names| ==> term(names[j]) >= 0.0
    requires k < |names| && term(names[k]) > 0.0
    ensures Sum(names, term) > 0.0
  {
    var init := names[..|names| - 1];
    if k == |names| - 1 {
      SumNonNegative(init, term);
    } else {
      SumPositive(init, term, k);
    }
  }

  /** Taking one element out of the sum. */
  lemma {:induction false} SumRemove(names: seq<string>, term: string -> real, k: nat)
    requires k < |names|
    ensures Sum(names, term) == Sum(names[..k] + names[k + 1..], term) + term(names[k])
  {
    var last := |names| - 1;
    if k == last {
      assert names[..k] + names[k + 1..] == names[..last];
    } else {
      var init := names[..last];
      SumRemove(init, term, k);
      var rest := names[..k] + names[k + 1..];
      assert rest[..|rest| - 1] == init[..k] + init[k + 1..];
      assert rest[|rest| - 1] == names[last];
    }
  }

  /** The sum does not depend on the order in which the names are visited. */
  lemma {:induction false} SumReorder(a: seq<string>, b: seq<string>, term: string -> real)
    requires multiset(a) == multiset(b)
    ensures Sum(a, term) == Sum(b, term)
  {
    if a == [] {
      assert |b| == |multiset(b)| == 0;
    } else {
      var last := |a| - 1;
      var e := a[last];
      assert e in multiset(b) by {
        assert a[last] in a;
      }
      var k :| 0 <= k < |b| && b[k] == e;
      MultisetRemove(a, last);
      MultisetRemove(b, k);
      assert a[..last] + a[last + 1..] == a[..last];
      SumReorder(a[..last], b[..k] + b[k + 1..], term);
      SumRemove(b, term, k);
    }
  }

  /** Taking the element at `k` out of `s` takes one occurrence of it out of its multiset. */
  lemma MultisetRemove(s: seq<string>, k: nat)
    requires k < |s|
    ensures multiset(s[..k] + s[k + 1..]) == multiset(s) - multiset{s[k]}
  {
    assert s == s[..k] + [s[k]] + s[k + 1..];
  }

  // ---------------------------------------------------------------------------------------
  // Lemmas on the operations

  /** An existing part keeps its name, status, weights and speed under `addComponent`. */
  lemma UpsertKeepsHistory(v: ItemValue, name: string, a: Axes)
    requires name in v.components
    ensures var c, r := v.components[name], Upserted(v, name, a).components[name];
      && r.(x := c.x, y := c.y, z := c.z, rx := c.rx, ry := c.ry, rz := c.rz) == c
      && r.FullGet() == (Override(c.x, a.x), Override(c.y, a.y), Override(c.z, a.z),
                         Override(c.rx, a.rx), Override(c.ry, a.ry), Override(c.rz, a.rz))
  {
  }

  /** With no part on sight and positioned, the barycenter is the zero accumulator. */
  lemma BarycenterWithoutVisibleParts(v: ItemValue)
    requires |v.components| > 0
    requires forall n :: n in v.components ==> !InBarycenter(v.components[n])
    ensures var r := Centered(v);
      r.baryWeight == 0.0 && r.x == Some(0.0) && r.y == Some(0.0) && r.z == Some(0.0)
  {
    forall q: BaryQuantity ensures Sum(v.order, BaryTerm(v.components, q)) == 0.0 {
      SumOfZeros(v.order, BaryTerm(v.components, q));
    }
  }

  /** The barycenter is a function of the parts alone: any other iteration order gives it too. */
  lemma BarycenterIgnoresOrder(v: ItemValue, order': seq<string>)
    requires multiset(order') == multiset(v.order)
    ensures Centered(v.(order := order')) == Centered(v).(order := order')
  {
    forall q: BaryQuantity ensures Sum(order', BaryTerm(v.components, q)) == Sum(v.order, BaryTerm(v.components, q)) {
      SumReorder(order', v.order, BaryTerm(v.components, q));
    }
  }

  /** Recomputing the barycenter changes nothing: its inputs are the parts, which it leaves alone. */
  lemma BarycenterIdempotent(v: ItemValue)
    ensures Centered(Centered(v)) == Centered(v)
  {
  }

  /** Two items with no part on sight in both are "unmatchable": their distance is NaN. */
  lemma DistanceWithoutSharedParts(v: ItemValue, w: ItemValue, sqrt: real -> real)
    requires forall n :: n in v.components ==>
      !(v.components[n].name in w.components && Overlap(v.components[n], w.components[v.components[n].name]))
    ensures Distance(v, w, sqrt) == NaN
  {
    SumOfZeros(v.order, DistWeightTerm(v.components, w.components));
  }

  /** One part on sight in both items, with a positive weight, makes the distance a number. */
  lemma DistanceWithSharedPart(v: ItemValue, w: ItemValue, sqrt: real -> real, n: string)
    requires v.WellFormed()
    requires forall m :: m in v.components ==> v.components[m].distWeight >= 0.0
    requires n in v.components && n in w.components && Overlap(v.components[n], w.components[n])
    requires v.components[n].distWeight > 0.0
    ensures Distance(v, w, sqrt).Finite?
  {
    var k :| 0 <= k < |v.order| && v.order[k] == n;
    SumPositive(v.order, DistWeightTerm(v.components, w.components), k);
  }

  /** One step of the merge loop keeps the dictionary well formed and adds the key `e`. */
  lemma MergeStepKeys(acc: ItemValue, src: map<string, Component>, e: string, dt: real, sqrt: real -> real)
    requires acc.WellFormed()
    requires e in src && src[e].name == e
    ensures var r := MergeStep(acc, src, e, dt, sqrt);
      r.WellFormed() && r.components.Keys == acc.components.Keys + {e}
  {
    if e !in acc.components {
      assert e !in acc.order;
    }
  }

  /** The merge loop adds the keys of the predecessor's parts and no other. */
  lemma {:induction false} MergeOverKeySet(v: ItemValue, src: map<string, Component>, names: seq<string>, dt: real, sqrt: real -> real)
    requires forall n :: n in names ==> n in src
    ensures forall n :: n in MergeOver(v, src, names, dt, sqrt).components <==> n in v.components || n in names
  {
    if names != [] {
      var last := |names| - 1;
      assert names == names[..last] + [names[last]];
      MergeOverKeySet(v, src, names[..last], dt, sqrt);
    }
  }

  /** The merge loop over the predecessor's parts keeps the dictionary well formed and adds their keys. */
  lemma {:induction false} MergeOverKeys(v: ItemValue, src: map<string, Component>, names: seq<string>, dt: real, sqrt: real -> real)
    requires v.WellFormed()
    requires forall n :: n in names ==> n in src && src[n].name == n
    ensures var r := MergeOver(v, src, names, dt, sqrt);
      r.WellFormed() && forall n :: n in r.components <==> n in v.components || n in names
  {
    MergeOverKeySet(v, src, names, dt, sqrt);
    if names != [] {
      var last := |names| - 1;
      var init, e := names[..last], names[last];
      MergeOverKeys(v, src, init, dt, sqrt);
      MergeStepKeys(MergeOver(v, src, init, dt, sqrt), src, e, dt, sqrt);
    }
  }

  /**
   * What the merge loop leaves under the key `n`: the predecessor's part, as UNKNOWN, when
   * only the predecessor has it; the part with its speed from both copies when both have it;
   * the part untouched when only the new item has it.
   */
  lemma {:induction false} MergeOverAt(v: ItemValue, src: map<string, Component>, names: seq<string>, dt: real, sqrt: real -> real, n: string)
    requires forall i, j :: 0 <= i < j < |names| ==> names[i] != names[j]
    requires forall m :: m in names ==> m in src
    requires n in v.components || n in names
    ensures var r := MergeOver(v, src, names, dt, sqrt);
      && n in r.components
      && r.components[n] ==
           if n !in names then v.components[n]
           else if n in v.components then v.components[n].(speed := MergedSpeed(v.components[n], src[n], dt, sqrt))
           else src[n].(status := Unknown)
  {
    if names != [] {
      var last := |names| - 1;
      var init, e := names[..last], names[last];
      assert names == init + [e];
      var acc := MergeOver(v, src, init, dt, sqrt);
      MergeOverKeySet(v, src, init, dt, sqrt);
      assert e !in init by {
        forall i | 0 <= i < |init| ensures init[i] != e {
          assert names[i] == init[i];
        }
      }
      if n in v.components || n in init {
        MergeOverAt(v, src, init, dt, sqrt, n);
      }
      MergeStepAt(acc, src, e, dt, sqrt, n);
    }
  }

  /** One step of the merge loop changes the key `e` alone. */
  lemma MergeStepAt(acc: ItemValue, src: map<string, Component>, e: string, dt: real, sqrt: real -> real, n: string)
    requires e in src && (n in acc.components || n == e)
    ensures var r := MergeStep(acc, src, e, dt, sqrt);
      && n in r.components
      && r.components[n] ==
           if n != e then acc.components[n]
           else if e in acc.components then acc.components[e].(speed := MergedSpeed(acc.components[e], src[e], dt, sqrt))
           else src[e].(status := Unknown)
  {
  }

  /** The merge leaves a well-formed dictionary. */
  lemma MergedWellFormed(v: ItemValue, w: ItemValue, sqrt: real -> real)
    requires v.WellFormed() && w.WellFormed()
    ensures Merged(v, w, sqrt).WellFormed()
  {
    MergeOverKeys(v, w.components, w.order, v.handler.lastSeen - w.handler.lastSeen, sqrt);
  }

  /** The merge keeps every part: the parts of the result are those of the new item and of its predecessor. */
  lemma MergeKeepsEveryPart(v: ItemValue, w: ItemValue, sqrt: real -> real)
    requires w.WellFormed()
    ensures forall n :: n in Merged(v, w, sqrt).components <==> n in v.components || n in w.components
  {
    MergeOverKeySet(v, w.components, w.order, v.handler.lastSeen - w.handler.lastSeen, sqrt);
  }

  /**
   * The parts of a merge: a part only the predecessor has is carried over as UNKNOWN, a part
   * only the new item has is untouched, and a part seen in both keeps everything but its speed,
   * which becomes `MergedSpeed` of its two copies over the elapsed time.
   */
  lemma MergedPart(v: ItemValue, w: ItemValue, sqrt: real -> real, n: string)
    requires v.WellFormed() && w.WellFormed()
    requires n in v.components || n in w.components
    ensures var r := Merged(v, w, sqrt); var dt := v.handler.lastSeen - w.handler.lastSeen;
      && n in r.components
      && (n !in w.components ==> r.components[n] == v.components[n])
      && (n in w.components && n !in v.components ==> r.components[n] == w.components[n].(status := Unknown))
      && (n in w.components && n in v.components ==>
            r.components[n] == v.components[n].(speed := MergedSpeed(v.components[n], w.components[n], dt, sqrt)))
  {
    MergeOverAt(v, w.components, w.order, v.handler.lastSeen - w.handler.lastSeen, sqrt, n);
  }

  // ---------------------------------------------------------------------------------------
  // The Item object

  class Item {
    var name: string
    var x: Option<real>
    var y: Option<real>
    var z: Option<real>
    var distWeight: real
    var baryWeight: real
    var speedWeight: real
    var speed: Option<real>
    var status: Status
    var handler: Handler
    var order: seq<string>
    var components: map<string, Component>

    /** The snapshot of every attribute. */
    function Value(): ItemValue
      reads this
    {
      ItemValue(name, x, y, z, distWeight, baryWeight, speedWeight, speed, status, handler, order, components)
    }

    /** The dictionary invariant holds of this item. */
    ghost predicate Valid()
      reads this
    {
      Value().WellFormed()
    }

    /** `Item(name)`; the handler's clock reading `seen` is passed in. */
    constructor (name: string, seen: real)
      ensures Value() == Blank(name, seen) && Valid()
    {
      this.name := name;
      x, y, z := None, None, None;
      distWeight, baryWeight, speedWeight := 1.0, 1.0, 1.0;
      speed := None;
      status := OnSight;
      handler := Handler(None, seen, Add);
      order := [];
      components := map[];
    }

    function GetID(): (r: Option<nat>)
      reads this
      ensures r == Value().handler.id
    {
      handler.id
    }

    function GetState(): (r: TrackState)
      reads this
      ensures r == Value().handler.state
    {
      handler.state
    }

    function GetTime(): (r: real)
      reads this
      ensures r == Value().handler.lastSeen
    {
      handler.lastSeen
    }

    method SetID(id: nat)
      modifies this
      ensures Value() == old(Value()).(handler := old(handler).(id := Some(id)))
    {
      handler := handler.(id := Some(id));
    }

    method SetState(state: TrackState)
      modifies this
      ensures Value() == old(Value()).(handler := old(handler).(state := state))
    {
      handler := handler.(state := state);
    }

    method SetTime(lastSeen: real)
      modifies this
      ensures Value() == old(Value()).(handler := old(handler).(lastSeen := lastSeen))
    {
      handler := handler.(lastSeen := lastSeen);
    }

    /** `addComponent`: `setdefault` the part, then apply the partial update to it. */
    method AddComponent(n: string, a: Axes)
      modifies this
      ensures Value() == Upserted(old(Value()), n, a)
    {
      var c := if n in components then components[n] else Fresh(n);
      if n !in components {
        order := order + [n];
      }
      components := components[n := c.FullUpdate(a)];
    }

    /** The four sums of `setBarycenter`'s loop, accumulated over the parts in dictionary order. */
    method BarySums() returns (w: real, sx: real, sy: real, sz: real)
      ensures w == Sum(order, BaryTerm(components, BaryWeight))
      ensures sx == Sum(order, BaryTerm(components, PosX))
      ensures sy == Sum(order, BaryTerm(components, PosY))
      ensures sz == Sum(order, BaryTerm(components, PosZ))
    {
      w, sx, sy, sz := 0.0, 0.0, 0.0, 0.0;
      for i := 0 to |order|
        invariant w == Sum(order[..i], BaryTerm(components, BaryWeight))
        invariant sx == Sum(order[..i], BaryTerm(components, PosX))
        invariant sy == Sum(order[..i], BaryTerm(components, PosY))
        invariant sz == Sum(order[..i], BaryTerm(components, PosZ))
      {
        var n := order[i];
        SumStep(order, i, BaryTerm(components, BaryWeight));
        SumStep(order, i, BaryTerm(components, PosX));
        SumStep(order, i, BaryTerm(components, PosY));
        SumStep(order, i, BaryTerm(components, PosZ));
        if n in components {
          var c := components[n];
          if c.status == OnSight && c.Positioned() {
            sx, sy, sz := sx + c.x.value, sy + c.y.value, sz + c.z.value;
            w := w + c.baryWeight;
          }
        }
      }
      assert order[..|order|] == order;
    }

    /** `setBarycenter`. */
    method SetBarycenter()
      modifies this
      ensures Value() == Centered(old(Value()))
    {
      if |components| > 0 {
        var w, sx, sy, sz := BarySums();
        baryWeight := w;
        if w != 0.0 {
          x, y, z := Some(sx / w), Some(sy / w), Some(sz / w);
        } else {
          x, y, z := Some(sx), Some(sy), Some(sz);
        }
      }
    }

    /** `setSpeed`; the caller must not call it when the summed weight is zero (the source raises). */
    method SetSpeed()
      requires SpeedDefined(Value())
      modifies this
      ensures Value() == WithSpeed(old(Value()))
    {
      if |components| > 0 {
        var s := 0.0;
        speedWeight := 0.0;
        for i := 0 to |order|
          invariant Value() == old(Value()).(speedWeight := speedWeight)
          invariant speedWeight == Sum(order[..i], SpeedTerm(components, true))
          invariant s == Sum(order[..i], SpeedTerm(components, false))
        {
          assert order[..i + 1][..i] == order[..i];
          var n := order[i];
          if n in components {
            var c := components[n];
            if c.status == OnSight && c.speed.Some? {
              s := s + c.speed.value;
              speedWeight := speedWeight + c.speedWeight;
            }
          }
        }
        assert order[..|order|] == order;
        speed := Some(s / speedWeight);
      }
    }

    /**
     * `__eq__`: the distance to `other`; as a side effect `distWeight` is overwritten with the
     * summed weight of the shared parts.
     */
    method DistanceTo(other: Item, sqrt: real -> real) returns (d: Cell)
      modifies this
      ensures d == Distance(old(Value()), old(other.Value()), sqrt)
      ensures Value() == old(Value()).(distWeight := OverlapWeight(old(Value()), old(other.Value())))
    {
      var theirs := other.components;
      var sum := 0.0;
      distWeight := 0.0;
      for i := 0 to |order|
        invariant Value() == old(Value()).(distWeight := distWeight)
        invariant distWeight == Sum(order[..i], DistWeightTerm(components, theirs))
        invariant sum == Sum(order[..i], DistTerm(components, theirs, sqrt))
      {
        assert order[..i + 1][..i] == order[..i];
        var n := order[i];
        if n in components {
          var mine := components[n];
          if mine.name in theirs {
            var their := theirs[mine.name];
            if mine.status == OnSight && their.status == OnSight && mine.Positioned() && their.Positioned() {
              sum := sum + mine.Dist(their, sqrt);
              distWeight := distWeight + mine.distWeight;
            }
          }
        }
      }
      assert order[..|order|] == order;
      if distWeight != 0.0 {
        d := Finite(sum / distWeight);
      } else {
        d := NaN;
      }
    }

    /** `self < other` (`__lt__`): carry the history of the predecessor `other` into this item. */
    method MergeFrom(other: Item, sqrt: real -> real)
      modifies this
      ensures Value() == Merged(old(Value()), old(other.Value()), sqrt)
    {
      var src, names, id := other.components, other.order, other.handler.id;
      var dt := GetTime() - other.GetTime();
      for i := 0 to |names|
        invariant Value() == MergeOver(old(Value()), src, names[..i], dt, sqrt)
      {
        assert names[..i + 1][..i] == names[..i];
        var n := names[i];
        if n in src {
          var prev := src[n];
          if n in components {
            var cur := components[n];
            if prev.status == OnSight {
              if cur.Positioned() && prev.Positioned() && dt != 0.0 {
                components := components[n := cur.(speed := Some(cur.Dist(prev, sqrt) / dt))];
              } else {
                components := components[n := cur.(speed := None)];
              }
            } else {
              components := components[n := cur.(speed := None)];
            }
          } else {
            components := components[n := prev.(status := Unknown)];
            order := order + [n];
          }
        }
      }
      assert names[..|names|] == names;
      handler := handler.(id := id);
    }

    /** `self > other` (`__gt__`): merge this item's history into `other`. */
    method MergeInto(other: Item, sqrt: real -> real)
      modifies other
      ensures other.Value() == Merged(old(other.Value()), old(Value()), sqrt)
    {
      other.MergeFrom(this, sqrt);
    }
  }
}
