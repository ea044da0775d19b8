/**
 The vertex and ring structure shared by the Greiner-Hormann and
 Weiler-Atherton clippers (the source's `Vertex` and `Polygon_` classes).

 A ring is a pair of parallel sequences: `points`, the coordinates, and
 `verts`, the vertices. The source links its vertices into a cycle with
 `nextV`/`prevV` references that `set_next_prev` recomputes after every
 change; here those links are the index functions `Next` and `Prev`, and
 `SetNextPrev` shows the relinking loop computes exactly them. Object
 identity of a vertex is its `id`.
 */
module Rings {
  import opened Options
  import opened Geometry

  /** Traversal directive of the entry/exit variant; `Unset` is the source's initial `False`. */
  datatype Status = Unset | Entry | Exit

  /** One vertex. `status` and `alpha` are used by Greiner-Hormann, `inside` and
      `inbound` by Weiler-Atherton; a variant leaves the other's fields at their
      defaults. `neighbor` holds the id of the paired vertex in the other ring. */
  datatype Vertex = Vertex(
    id: nat,
    pt: Point,
    isect: bool,
    status: Status,
    neighbor: Option<nat>,
    alpha: real,
    inside: bool,
    inbound: bool)

  /** A vertex as the source's constructor makes it from bare coordinates. */
  function Plain(id: nat, p: Point): Vertex {
    Vertex(id, p, false, Unset, None, 0.0, false, false)
  }

  /** A polygon ring: coordinates, vertices, and whether it has been closed. */
  datatype Ring = Ring(points: seq<Point>, verts: seq<Vertex>, closed: bool)

  /** The ring with no vertices, as `Polygon_([], False)` makes it. */
  const EmptyRing: Ring := Ring([], [], false)

  /** `points[i]` is the coordinate of `verts[i]`. */
  predicate Parallel(r: Ring) {
    |r.points| == |r.verts| && forall i :: 0 <= i < |r.verts| ==> r.points[i] == r.verts[i].pt
  }

  /** No coordinate occurs twice. */
  predicate NoDup(ps: seq<Point>) {
    forall i, j :: 0 <= i < j < |ps| ==> ps[i] != ps[j]
  }

  /** No two positions hold vertices with the same identity. */
  predicate DistinctIds(vs: seq<Vertex>) {
    forall i, j :: 0 <= i < j < |vs| ==> vs[i].id != vs[j].id
  }

  /** Some vertex of `vs` has identity `id`. */
  predicate HasId(vs: seq<Vertex>, id: nat) {
    exists k :: 0 <= k < |vs| && vs[k].id == id
  }

  /** Number of intersection vertices. */
  function CountIsect(vs: seq<Vertex>): nat {
    if vs == [] then 0 else (if vs[0].isect then 1 else 0) + CountIsect(vs[1..])
  }

  lemma {:induction false} CountIsectAppend(a: seq<Vertex>, b: seq<Vertex>)
    ensures CountIsect(a + b) == CountIsect(a) + CountIsect(b)
  {
    if a == [] {
      assert a + b == b;
    } else {
      assert (a + b)[1..] == a[1..] + b;
      CountIsectAppend(a[1..], b);
    }
  }

  /** The ring the constructor `Polygon_(pts, closed)` builds, its vertices
      numbered from `base`. */
  function MakeRing(pts: seq<Point>, closed: bool, base: nat): (r: Ring)
    ensures Parallel(r) && r.points == pts && r.closed == closed
    ensures forall i :: 0 <= i < |r.verts| ==> r.verts[i] == Plain(base + i, pts[i])
  {
    Ring(pts, seq(|pts|, i requires 0 <= i < |pts| => Plain(base + i, pts[i])), closed)
  }

  /** A freshly built ring has distinct identities in `[base, base + |pts|)`
      and no intersection vertices. */
  lemma MakeRingFresh(pts: seq<Point>, closed: bool, base: nat)
    ensures var r := MakeRing(pts, closed, base);
      && DistinctIds(r.verts) && CountIsect(r.verts) == 0
      && forall i :: 0 <= i < |r.verts| ==> base <= r.verts[i].id < base + |pts|
  {
    NoIsectCount(MakeRing(pts, closed, base).verts);
  }

  lemma {:induction false} NoIsectCount(vs: seq<Vertex>)
    requires forall i :: 0 <= i < |vs| ==> !vs[i].isect
    ensures CountIsect(vs) == 0
  {
    if vs != [] {
      NoIsectCount(vs[1..]);
    }
  }

  /** Cyclic successor index in a ring of `n` vertices: (i + 1) mod n. */
  function Next(n: nat, i: nat): (j: nat)
    requires i < n
    ensures j < n
  {
    if i + 1 == n then 0 else i + 1
  }

  /** Cyclic predecessor index in a ring of `n` vertices: (i - 1) mod n. */
  function Prev(n: nat, i: nat): (j: nat)
    requires i < n
    ensures j < n
  {
    if i == 0 then n - 1 else i - 1
  }

  /** `Next` and `Prev` are the cyclic successor and predecessor modulo `n`. */
  lemma NextPrevMod(n: nat, i: nat)
    requires i < n
    ensures Next(n, i) == (i + 1) % n && Prev(n, i) == (i - 1) % n
  {
  }

  /** The links are mutually inverse: next(prev(v)) = v and prev(next(v)) = v. */
  lemma NextPrevInverse(n: nat, i: nat)
    requires i < n
    ensures Next(n, Prev(n, i)) == i && Prev(n, Next(n, i)) == i
  {
  }

  /** The relinking loop of `set_next_prev` over link arrays of a ring of `n`
      vertices: afterwards every vertex links to its cyclic neighbours, and an
      empty ring keeps its (empty) links. */
  method SetNextPrev(nxt0: seq<nat>, prv0: seq<nat>) returns (nxt: seq<nat>, prv: seq<nat>)
    requires |nxt0| == |prv0|
    ensures |nxt| == |prv| == |nxt0|
    ensures forall i :: 0 <= i < |nxt| ==> nxt[i] == Next(|nxt|, i) && prv[i] == Prev(|nxt|, i)
    ensures forall i :: 0 <= i < |nxt| ==> nxt[i] < |nxt| && prv[i] < |nxt| && prv[nxt[i]] == i && nxt[prv[i]] == i
  {
    var n := |nxt0|;
    nxt, prv := nxt0, prv0;
    if n > 0 {
      prv := prv[0 := n - 1];
      nxt := nxt[n - 1 := 0];
      var i := 0;
      while i < n
        invariant 0 <= i <= n && |nxt| == |prv| == n
        invariant prv[0] == n - 1 && nxt[n - 1] == 0
        invariant forall k :: 0 < k < i ==> prv[k] == k - 1
        invariant forall k :: 0 <= k < i && k < n - 1 ==> nxt[k] == k + 1
      {
        if i > 0 {
          prv := prv[i := i - 1];
        }
        if i < n - 1 {
          nxt := nxt[i := i + 1];
        }
        i := i + 1;
      }
    }
  }

  /** Merge-on-close `add`: a coordinate already in the ring only closes it;
      any other is appended at the end. */
  function Add(r: Ring, v: Vertex): Ring {
    if v.pt in r.points then r.(closed := true)
    else Ring(r.points + [v.pt], r.verts + [v], r.closed)
  }

  /** After `add` the coordinate is in the ring and nothing earlier is lost; the
      ring is closed exactly when it was or the coordinate was already present,
      and a ring without repeated coordinates keeps that property. */
  lemma AddMerges(r: Ring, v: Vertex)
    ensures var r' := Add(r, v);
      && v.pt in r'.points && r.points <= r'.points && r.verts <= r'.verts
      && (r'.closed <==> r.closed || v.pt in r.points)
      && (v.pt in r.points ==> r'.points == r.points && r'.verts == r.verts)
      && (v.pt !in r.points ==> |r'.verts| == |r.verts| + 1 && r'.verts[|r.verts|] == v)
      && (v.pt !in r.points ==> r'.points == r.points + [v.pt])
      && (Parallel(r) ==> Parallel(r'))
      && (NoDup(r.points) ==> NoDup(r'.points))
  {
  }

  /** Index of the first vertex with identity `id` (the source's `list.index`). */
  function Find(vs: seq<Vertex>, id: nat): (r: Option<nat>)
    ensures r.Some? ==> r.value < |vs| && vs[r.value].id == id
    ensures r.Some? ==> forall k :: 0 <= k < r.value ==> vs[k].id != id
    ensures r.None? <==> !HasId(vs, id)
  {
    if vs == [] then None
    else if vs[0].id == id then Some(0)
    else match Find(vs[1..], id)
      case None => (assert forall k :: 0 < k < |vs| ==> vs[k] == vs[1..][k - 1]; None)
      case Some(k) => Some(k + 1)
  }

  /** In a ring with distinct identities, looking a vertex up by its own
      identity gives back its position. */
  lemma FindOwnId(vs: seq<Vertex>, i: nat)
    requires DistinctIds(vs) && i < |vs|
    ensures Find(vs, vs[i].id) == Some(i)
  {
    assert HasId(vs, vs[i].id);
  }

  /** Index of the first occurrence of coordinate `p`. */
  function FindPoint(ps: seq<Point>, p: Point): (r: Option<nat>)
    ensures r.Some? ==> r.value < |ps| && ps[r.value] == p
    ensures r.Some? ==> forall k :: 0 <= k < r.value ==> ps[k] != p
    ensures r.None? <==> p !in ps
  {
    if ps == [] then None
    else if ps[0] == p then Some(0)
    else match FindPoint(ps[1..], p)
      case None => (assert ps == [ps[0]] + ps[1..]; None)
      case Some(k) => Some(k + 1)
  }

  /** `sort(v, V0, V1)`: insert `v` into both sequences just before the vertex
      whose identity is `anchor` (the source never reads `V0`). */
  function Sort(r: Ring, v: Vertex, anchor: nat): Ring
    requires Parallel(r) && HasId(r.verts, anchor)
  {
    var k := Find(r.verts, anchor).value;
    Ring(Insert(r.points, k, v.pt), Insert(r.verts, k, v), r.closed)
  }

  /** `sort` places `v` immediately before the anchor, keeps the ring parallel,
      and leaves every other vertex and coordinate where it was relative to the
      rest. */
  lemma SortPlaces(r: Ring, v: Vertex, anchor: nat)
    requires Parallel(r) && HasId(r.verts, anchor)
    ensures var k, r' := Find(r.verts, anchor).value, Sort(r, v, anchor);
      && |r'.verts| == |r.verts| + 1 && r'.closed == r.closed && Parallel(r')
      && r'.verts == Insert(r.verts, k, v)
      && r'.verts[k] == v && r'.verts[Next(|r'.verts|, k)].id == anchor
      && Without(r'.verts, k) == r.verts && Without(r'.points, k) == r.points
  {
    var k := Find(r.verts, anchor).value;
    ParallelInsert(r, k, v);
    InsertSpec(r.verts, k, v);
    InsertSpec(r.points, k, v.pt);
    assert Insert(r.verts, k, v)[k + 1] == r.verts[k];
  }

  lemma ParallelInsert(r: Ring, k: nat, v: Vertex)
    requires Parallel(r) && k <= |r.verts|
    ensures Parallel(Ring(Insert(r.points, k, v.pt), Insert(r.verts, k, v), r.closed))
  {
    InsertAt(r.points, k, v.pt);
    InsertAt(r.verts, k, v);
  }

  /** `a` with position `k` removed. */
  function Without<T>(a: seq<T>, k: nat): seq<T>
    requires k < |a|
  {
    a[..k] + a[k + 1..]
  }

  /** Where position `i` of a sequence lands after an insertion at `k`. */
  function Shift(i: nat, k: nat): nat {
    if i < k then i else i + 1
  }

  /** `a` with `x` inserted at position `k`, as `list.insert` does. */
  function Insert<T>(a: seq<T>, k: nat, x: T): seq<T>
    requires k <= |a|
  {
    a[..k] + [x] + a[k..]
  }

  /** The insertion holds `x` at `k`, removing it gives back `a`, and every
      old element moves to its shifted position. */
  lemma InsertSpec<T>(a: seq<T>, k: nat, x: T)
    requires k <= |a|
    ensures var b := Insert(a, k, x);
      && |b| == |a| + 1 && b[k] == x && Without(b, k) == a
      && forall i :: 0 <= i < |a| ==> b[Shift(i, k)] == a[i]
  {
    var b := Insert(a, k, x);
    assert b[..k] == a[..k];
    assert b[k + 1..] == a[k..];
    assert a == a[..k] + a[k..];
  }

  /** Where each element of `Insert(a, k, x)` comes from. */
  lemma InsertAt<T>(a: seq<T>, k: nat, x: T)
    requires k <= |a|
    ensures forall i :: 0 <= i < |a| + 1 ==>
      Insert(a, k, x)[i] == if i < k then a[i] else if i == k then x else a[i - 1]
  {
    var b := Insert(a, k, x);
    assert b == a[..k] + [x] + a[k..];
  }

  /** `Insert(a, k, x)` holds the elements of `a` and one more `x`. */
  lemma InsertMembers<T>(a: seq<T>, k: nat, x: T)
    requires k <= |a|
    ensures multiset(Insert(a, k, x)) == multiset(a) + multiset{x}
  {
    var b := Insert(a, k, x);
    assert b == a[..k] + [x] + a[k..];
    assert a == a[..k] + a[k..];
  }

  /** `link`: pair two vertices as each other's neighbour, changing nothing else. */
  function Link(a: Vertex, b: Vertex): (r: (Vertex, Vertex))
    ensures r.0.neighbor == Some(r.1.id) && r.1.neighbor == Some(r.0.id)
    ensures r.0.(neighbor := a.neighbor) == a && r.1.(neighbor := b.neighbor) == b
  {
    (a.(neighbor := Some(b.id)), b.(neighbor := Some(a.id)))
  }

  /** `intersect_vertex`: index of the first intersection vertex not yet
      processed, scanning vertices and flags together as `zip` does. */
  function FirstUnprocessed(vs: seq<Vertex>, processed: seq<bool>): (r: Option<nat>)
    ensures r.Some? ==>
      && r.value < |vs| && r.value < |processed|
      && vs[r.value].isect && !processed[r.value]
      && forall k :: 0 <= k < r.value ==> !vs[k].isect || processed[k]
    ensures r.None? <==>
      forall k :: 0 <= k < |vs| && k < |processed| ==> !vs[k].isect || processed[k]
  {
    if vs == [] || processed == [] then None
    else if vs[0].isect && !processed[0] then Some(0)
    else match FirstUnprocessed(vs[1..], processed[1..])
      case None =>
        assert forall k :: 0 < k < |vs| && k < |processed| ==>
          vs[k] == vs[1..][k - 1] && processed[k] == processed[1..][k - 1];
        None
      case Some(k) => Some(k + 1)
  }
}
