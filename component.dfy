/**
 * A named part of an item (item_tracking/item.py, class Component): a pose whose axes stay
 * unset until observed, a visibility status, three aggregation weights and a derived speed.
 */
module Components {
  import opened Optional

  /** Component.UNKNOWN = 0 and Component.ON_SIGHT = 1. */
  datatype Status = Unknown | OnSight

  /** The keyword arguments `fullUpdate` reads (x, y, z, rx, ry, rz); an absent one is None. */
  datatype Axes = Axes(x: Option<real>, y: Option<real>, z: Option<real>,
                       rx: Option<real>, ry: Option<real>, rz: Option<real>)

  datatype Component = Component(
    name: string,
    x: Option<real>, y: Option<real>, z: Option<real>,
    rx: Option<real>, ry: Option<real>, rz: Option<real>,
    distWeight: real, baryWeight: real, speedWeight: real,
    speed: Option<real>,
    status: Status)
  {
    /** All three position axes are set, so the component has a place in space. */
    predicate Positioned() {
      x.Some? && y.Some? && z.Some?
    }

    /** `updatePose`: each supplied position axis is overwritten, every other field is kept. */
    function UpdatePose(nx: Option<real>, ny: Option<real>, nz: Option<real>): (r: Component)
      ensures r.x == Override(x, nx) && r.y == Override(y, ny) && r.z == Override(z, nz)
      ensures r.(x := x, y := y, z := z) == this
    {
      this.(x := Override(x, nx), y := Override(y, ny), z := Override(z, nz))
    }

    /** `updateOrientation`: each supplied angle is overwritten, every other field is kept. */
    function UpdateOrientation(nrx: Option<real>, nry: Option<real>, nrz: Option<real>): (r: Component)
      ensures r.rx == Override(rx, nrx) && r.ry == Override(ry, nry) && r.rz == Override(rz, nrz)
      ensures r.(rx := rx, ry := ry, rz := rz) == this
    {
      this.(rx := Override(rx, nrx), ry := Override(ry, nry), rz := Override(rz, nrz))
    }

    /** `fullUpdate`: the pose update followed by the orientation update. */
    function FullUpdate(a: Axes): (r: Component)
      ensures r.(x := x, y := y, z := z, rx := rx, ry := ry, rz := rz) == this
      ensures r.FullGet() == (Override(x, a.x), Override(y, a.y), Override(z, a.z),
                              Override(rx, a.rx), Override(ry, a.ry), Override(rz, a.rz))
    {
      UpdatePose(a.x, a.y, a.z).UpdateOrientation(a.rx, a.ry, a.rz)
    }

    /** `fullGet`: the six pose axes. */
    function FullGet(): (r: (Option<real>, Option<real>, Option<real>, Option<real>, Option<real>, Option<real>))
      ensures Positioned() <==> r.0.Some? && r.1.Some? && r.2.Some?
    {
      (x, y, z, rx, ry, rz)
    }

    /** The sum of squared axis differences under the square root of `dist`. */
    function SquaredDistance(other: Component): (r: real)
      requires Positioned() && other.Positioned()
      ensures r >= 0.0
    {
      var dx := other.x.value - x.value;
      var dy := other.y.value - y.value;
      var dz := other.z.value - z.value;
      dx * dx + dy * dy + dz * dz
    }

    /**
     * `dist`: the Euclidean distance between two fully set positions; the square root is the
     * numeric library's routine and is taken as the parameter `sqrt`.
     */
    function Dist(other: Component, sqrt: real -> real): (r: real)
      requires Positioned() && other.Positioned()
      ensures (forall t: real :: t >= 0.0 ==> sqrt(t) >= 0.0) ==> r >= 0.0
    {
      sqrt(SquaredDistance(other))
    }
  }

  /** A component as `Component(name=name)` creates it: nothing observed, unit weights, on sight. */
  function Fresh(name: string): (c: Component)
    ensures c.name == name && c.status == OnSight && c.speed.None?
    ensures c.FullGet() == (None, None, None, None, None, None)
    ensures c.distWeight == 1.0 && c.baryWeight == 1.0 && c.speedWeight == 1.0
  {
    Component(name, None, None, None, None, None, None, 1.0, 1.0, 1.0, None, OnSight)
  }

  /** Applying the same partial update twice leaves the state of applying it once. */
  lemma FullUpdateIdempotent(c: Component, a: Axes)
    ensures c.FullUpdate(a).FullUpdate(a) == c.FullUpdate(a)
  {
  }

  /** Only the supplied axes change: an update supplying nothing is the identity. */
  lemma EmptyUpdateIsIdentity(c: Component)
    ensures c.FullUpdate(Axes(None, None, None, None, None, None)) == c
  {
  }

  /** Feeding `fullGet` back into `fullUpdate` changes nothing: the getter reads exactly the axes the update writes. */
  lemma FullGetRoundTrip(c: Component)
    ensures var g := c.FullGet(); c.FullUpdate(Axes(g.0, g.1, g.2, g.3, g.4, g.5)) == c
  {
  }

  /** `dist` does not depend on which of the two components it is called on. */
  lemma DistSymmetric(a: Component, b: Component, sqrt: real -> real)
    requires a.Positioned() && b.Positioned()
    ensures a.Dist(b, sqrt) == b.Dist(a, sqrt)
  {
    var dx := b.x.value - a.x.value;
    var dy := b.y.value - a.y.value;
    var dz := b.z.value - a.z.value;
    assert (-dx) * (-dx) == dx * dx && (-dy) * (-dy) == dy * dy && (-dz) * (-dz) == dz * dz;
  }
}
