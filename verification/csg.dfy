/** The index arithmetic of the CSG mesh utilities: fan triangulation of polygons
    (`Meshing`), de-indexing of a mesh into a triangle soup (`Fragmentize`) and the
    grouping of a soup into oriented triangles (`GenCsgTree`). Positions and normals
    are an abstract vector type `V`; the cross/dot orientation test and the plane of a
    polygon are oracles. */
module Csg {
  import opened Wrappers

  /** A polygon of the CSG tree with the normal of its plane. */
  datatype Polygon<V> = Polygon(verts: seq<V>, normal: V)

  /** Vertex, normal and index buffers of a mesh. */
  datatype Mesh<V> = Mesh(verts: seq<V>, normals: seq<V>, tris: seq<int>)

  datatype CsgError =
    | IndexOutOfRange   // an array access the C# runtime would reject
    | NotTriangles      // the vertex count is not a multiple of three
    | MissingNormal     // the `List` indexer past the end of the normals

  // ---- `Meshing` ----

  /** Triangles a fan over `k` vertices emits: one per `i` in `3..k`. */
  function Triangles(k: nat): nat {
    if k < 3 then 0 else k - 2
  }

  /** The triangle of fan step `i = t + 3`: `(vs[0], vs[i-2], vs[i-1])`. */
  function FanTriangle<V>(vs: seq<V>, t: nat): seq<V>
    requires t + 2 < |vs|
  {
    [vs[0], vs[t + 1], vs[t + 2]]
  }

  /** The fan steps `i = 3..n` over `vs`, in increasing `i`. */
  function FanUpTo<V>(vs: seq<V>, n: nat): (r: seq<V>)
    requires n <= |vs| || n < 3
    ensures |r| == 3 * Triangles(n)
    ensures forall t :: 0 <= t < Triangles(n) ==> r[3 * t..3 * t + 3] == FanTriangle(vs, t)
  {
    if n < 3 then []
    else
      var init := FanUpTo(vs, n - 1);
      var r := init + FanTriangle(vs, n - 3);
      assert forall t :: 0 <= t < Triangles(n - 1) ==> r[3 * t..3 * t + 3] == init[3 * t..3 * t + 3];
      r
  }

  /** The whole fan of one polygon: `k - 2` triangles for `k` vertices, none below three. */
  function Fan<V>(vs: seq<V>): (r: seq<V>)
    ensures |r| == 3 * Triangles(|vs|)
    ensures |vs| < 3 ==> r == []
    ensures forall t :: 0 <= t < Triangles(|vs|) ==> r[3 * t..3 * t + 3] == FanTriangle(vs, t)
  {
    FanUpTo(vs, |vs|)
  }

  /** The triangles of all polygons. */
  function Total<V>(ps: seq<Polygon<V>>): nat {
    if ps == [] then 0 else Total(ps[..|ps| - 1]) + Triangles(|ps[|ps| - 1].verts|)
  }

  /** Reference: the fans of all polygons, in polygon order. */
  function FanAll<V>(ps: seq<Polygon<V>>): (r: seq<V>)
    ensures |r| == 3 * Total(ps)
  {
    if ps == [] then [] else FanAll(ps[..|ps| - 1]) + Fan(ps[|ps| - 1].verts)
  }

  /** `k` copies of the normal `n`. */
  function Paint<V>(n: V, k: nat): (r: seq<V>)
    ensures |r| == k && forall i :: 0 <= i < k ==> r[i] == n
  {
    seq(k, _ => n)
  }

  /** Reference: every emitted vertex carries the normal of its polygon's plane. */
  function Shade<V>(ps: seq<Polygon<V>>): (r: seq<V>)
    ensures |r| == 3 * Total(ps)
  {
    if ps == [] then []
    else Shade(ps[..|ps| - 1]) + Paint(ps[|ps| - 1].normal, 3 * Triangles(|ps[|ps| - 1].verts|))
  }

  /** `CSG.Meshing`: the fan triangulation of every polygon with its plane normal, and an
      index buffer that counts up from zero. */
  method Meshing<V>(polys: seq<Polygon<V>>) returns (m: Mesh<V>)
    ensures m.verts == FanAll(polys)
    ensures m.normals == Shade(polys)
    ensures |m.verts| == |m.normals| == |m.tris| == 3 * Total(polys)
    ensures forall k :: 0 <= k < |m.tris| ==> m.tris[k] == k
  {
    var vs: seq<V> := [];
    var ns: seq<V> := [];
    var ts: seq<int> := [];
    for j := 0 to |polys|
      invariant vs == FanAll(polys[..j]) && ns == Shade(polys[..j])
      invariant |vs| == |ts|
      invariant forall k :: 0 <= k < |ts| ==> ts[k] == k
    {
      vs, ns, ts := Emit(polys[j], vs, ns, ts);
      Snoc(polys, j);
    }
    assert polys[..|polys|] == polys;
    m := Mesh(vs, ns, ts);
  }

  /** The inner loop of `Meshing` for one polygon `p`, appending to the buffers; `count`
      is the length of the index buffer so far. */
  method Emit<V>(p: Polygon<V>, vs0: seq<V>, ns0: seq<V>, ts0: seq<int>) returns (vs: seq<V>, ns: seq<V>, ts: seq<int>)
    requires |vs0| == |ts0| && forall k :: 0 <= k < |ts0| ==> ts0[k] == k
    ensures vs == vs0 + Fan(p.verts)
    ensures ns == ns0 + Paint(p.normal, 3 * Triangles(|p.verts|))
    ensures |vs| == |ts| && forall k :: 0 <= k < |ts| ==> ts[k] == k
  {
    vs, ns, ts := vs0, ns0, ts0;
    var count := |ts0|;
    var i := 3;
    while i <= |p.verts|
      invariant 3 <= i && (i <= |p.verts| + 1 || i == 3)
      invariant vs == vs0 + FanUpTo(p.verts, i - 1)
      invariant ns == ns0 + Paint(p.normal, 3 * Triangles(i - 1))
      invariant count == |vs| == |ts|
      invariant forall k :: 0 <= k < |ts| ==> ts[k] == k
    {
      var n := p.normal;
      Regroup(vs0, FanUpTo(p.verts, i - 1), [p.verts[0], p.verts[i - 2], p.verts[i - 1]]);
      vs := vs + [p.verts[0], p.verts[i - 2], p.verts[i - 1]];
      PaintMore(n, 3 * Triangles(i - 1));
      Regroup(ns0, Paint(n, 3 * Triangles(i - 1)), [n, n, n]);
      ns := ns + [n, n, n];
      ts := ts + [count, count + 1, count + 2];
      count := count + 3;
      i := i + 1;
    }
    assert FanUpTo(p.verts, i - 1) == Fan(p.verts);
  }

  lemma PaintMore<V>(n: V, k: nat)
    ensures Paint(n, k + 3) == Paint(n, k) + [n, n, n]
  {
    assert Paint(n, k + 3) == Paint(n, k) + [n, n, n];
  }

  /** Extending the polygon prefix by one polygon extends both references by its fan. */
  lemma Snoc<V>(ps: seq<Polygon<V>>, j: nat)
    requires j < |ps|
    ensures FanAll(ps[..j + 1]) == FanAll(ps[..j]) + Fan(ps[j].verts)
    ensures Shade(ps[..j + 1]) == Shade(ps[..j]) + Paint(ps[j].normal, 3 * Triangles(|ps[j].verts|))
  {
    assert ps[..j + 1][..j] == ps[..j];
  }

  /** A mesh of triangles emits one triangle per polygon. */
  lemma {:induction false} TotalTriangles<V>(ps: seq<Polygon<V>>)
    requires forall j :: 0 <= j < |ps| ==> |ps[j].verts| == 3
    ensures Total(ps) == |ps|
  {
    if ps != [] {
      TotalTriangles(ps[..|ps| - 1]);
    }
  }

  /** A mesh of triangles fans into exactly its own corners, three by three. */
  lemma {:induction false} FanTriangles<V>(ps: seq<Polygon<V>>, j: nat)
    requires forall j :: 0 <= j < |ps| ==> |ps[j].verts| == 3
    requires j < |ps|
    ensures 3 * j + 3 <= |FanAll(ps)| && FanAll(ps)[3 * j..3 * j + 3] == ps[j].verts
  {
    var init := ps[..|ps| - 1];
    var last := ps[|ps| - 1];
    TotalTriangles(ps);
    TotalTriangles(init);
    FanOfTriangle(last.verts);
    assert FanAll(ps) == FanAll(init) + last.verts;
    if j < |init| {
      FanTriangles(init, j);
      assert ps[j] == init[j];
      SliceLeft(FanAll(init), last.verts, 3 * j);
    } else {
      SliceRight(FanAll(init), last.verts);
    }
  }

  /** ... and every corner carries its triangle's normal. */
  lemma {:induction false} ShadeTriangles<V>(ps: seq<Polygon<V>>, j: nat)
    requires forall j :: 0 <= j < |ps| ==> |ps[j].verts| == 3
    requires j < |ps|
    ensures 3 * j + 3 <= |Shade(ps)|
    ensures forall k :: 3 * j <= k < 3 * j + 3 ==> Shade(ps)[k] == ps[j].normal
  {
    var init := ps[..|ps| - 1];
    var last := ps[|ps| - 1];
    TotalTriangles(ps);
    TotalTriangles(init);
    var left, right := Shade(init), Paint(last.normal, 3);
    assert Shade(ps) == left + right;
    if j < |init| {
      ShadeTriangles(init, j);
      assert ps[j] == init[j];
      assert forall k :: 3 * j <= k < 3 * j + 3 ==> (left + right)[k] == left[k];
    } else {
      assert forall k :: 3 * j <= k < 3 * j + 3 ==> (left + right)[k] == right[k - |left|];
    }
  }

  // ---- `Fragmentize` ----

  /** Every index of `tris` addresses an element of a buffer of length `n`. */
  predicate InRange(tris: seq<int>, n: nat) {
    forall i :: 0 <= i < |tris| ==> 0 <= tris[i] < n
  }

  /** The corners the index buffer `tris` selects from `vs`. */
  function Soup<V>(vs: seq<V>, tris: seq<int>): (r: seq<V>)
    requires InRange(tris, |vs|)
    ensures |r| == |tris| && forall i :: 0 <= i < |tris| ==> r[i] == vs[tris[i]]
  {
    seq(|tris|, i requires 0 <= i < |tris| => vs[tris[i]])
  }

  /** `CSG.Fragmentize`: one vertex and one normal per index, and the identity index
      buffer. An index outside either source buffer is the runtime's range error. */
  method Fragmentize<V>(vrts: seq<V>, nrms: seq<V>, tris: seq<int>) returns (r: Result<Mesh<V>, CsgError>)
    ensures r.Success? <==> InRange(tris, |vrts|) && InRange(tris, |nrms|)
    ensures r.Failure? ==> r.error == IndexOutOfRange
    ensures r.Success? ==>
      var m := r.value;
      |m.verts| == |m.normals| == |m.tris| == |tris| &&
      (forall i :: 0 <= i < |tris| ==> m.verts[i] == vrts[tris[i]] && m.normals[i] == nrms[tris[i]]) &&
      (forall i :: 0 <= i < |tris| ==> m.tris[i] == i)
    ensures r.Success? ==>
      InRange(r.value.tris, |r.value.verts|) &&
      Soup(r.value.verts, r.value.tris) == Soup(vrts, tris) == r.value.verts
  {
    var vs: seq<V> := [];
    var ns: seq<V> := [];
    var ts: seq<int> := [];
    for i := 0 to |tris|
      invariant InRange(tris[..i], |vrts|) && InRange(tris[..i], |nrms|)
      invariant |vs| == |ns| == |ts| == i
      invariant forall k :: 0 <= k < i ==> vs[k] == vrts[tris[k]] && ns[k] == nrms[tris[k]] && ts[k] == k
    {
      var t := tris[i];
      if !(0 <= t < |vrts|) || !(0 <= t < |nrms|) {
        assert !(0 <= tris[i] < |vrts|) || !(0 <= tris[i] < |nrms|);
        return Failure(IndexOutOfRange);
      }
      vs := vs + [vrts[t]];
      ns := ns + [nrms[t]];
      ts := ts + [i];
      assert tris[..i + 1] == tris[..i] + [t];
    }
    assert tris[..|tris|] == tris;
    r := Success(Mesh(vs, ns, ts));
    assert Soup(vs, ts) == vs;
    assert Soup(vrts, tris) == vs;
  }

  // ---- `GenCsgTree` ----

  /** Orientation oracle: whether `cross(b - a, c - a)` points along the normal `n`. */
  type Oriented<!V> = (V, V, V, V) -> bool

  /** The plane normal the `Polygon` constructor computes from its vertices. */
  type Plane<!V> = seq<V> -> V

  /** One triangle: in order when counter-clockwise about `n`, else with `b` and `c` swapped. */
  function Wind<V>(oriented: Oriented<V>, a: V, b: V, c: V, n: V): (r: seq<V>)
    ensures |r| == 3 && r[0] == a
    ensures multiset(r) == multiset{a, b, c}
    ensures oriented(a, b, c, n) ==> r == [a, b, c]
    ensures !oriented(a, b, c, n) ==> r == [a, c, b]
  {
    if oriented(a, b, c, n) then [a, b, c] else [a, c, b]
  }

  /** The polygon loop of `GenCsgTree`: triple `i` is vertices `3i`, `3i+1`, `3i+2`, wound
      by the normal of its first vertex. */
  function Orient<V>(oriented: Oriented<V>, plane: Plane<V>, vs: seq<V>, ns: seq<V>): (r: seq<Polygon<V>>)
    requires |ns| >= |vs|
    ensures |r| == |vs| / 3
    ensures forall i :: 0 <= i < |r| ==>
      r[i].verts == Wind(oriented, vs[3 * i], vs[3 * i + 1], vs[3 * i + 2], ns[3 * i]) &&
      r[i].normal == plane(r[i].verts)
    ensures forall i :: 0 <= i < |r| ==>
      |r[i].verts| == 3 && r[i].verts[0] == vs[3 * i] &&
      multiset(r[i].verts) == multiset{vs[3 * i], vs[3 * i + 1], vs[3 * i + 2]}
  {
    seq(|vs| / 3, i requires 0 <= i < |vs| / 3 =>
      var w := Wind(oriented, vs[3 * i], vs[3 * i + 1], vs[3 * i + 2], ns[3 * i]);
      Polygon(w, plane(w)))
  }

  /** `CSG.GenCsgTree` on a mesh, fragmentized first unless it already is. */
  method GenCsgTree<V>(oriented: Oriented<V>, plane: Plane<V>, mesh: Mesh<V>, isFragmentized: bool)
    returns (r: Result<seq<Polygon<V>>, CsgError>)
    ensures isFragmentized ==>
      (r.Success? <==> |mesh.verts| % 3 == 0 && |mesh.normals| >= |mesh.verts|)
    ensures isFragmentized && |mesh.verts| % 3 != 0 ==> r == Failure(NotTriangles)
    ensures isFragmentized && |mesh.verts| % 3 == 0 && |mesh.normals| < |mesh.verts| ==> r == Failure(MissingNormal)
    ensures isFragmentized && r.Success? ==> r.value == Orient(oriented, plane, mesh.verts, mesh.normals)
    ensures !isFragmentized && !(InRange(mesh.tris, |mesh.verts|) && InRange(mesh.tris, |mesh.normals|)) ==>
      r == Failure(IndexOutOfRange)
    ensures !isFragmentized && InRange(mesh.tris, |mesh.verts|) && InRange(mesh.tris, |mesh.normals|) ==>
      (r.Success? <==> |mesh.tris| % 3 == 0)
    ensures !isFragmentized && r.Success? ==>
      r.value == Orient(oriented, plane, Soup(mesh.verts, mesh.tris), Soup(mesh.normals, mesh.tris))
    ensures r.Success? ==> forall i :: 0 <= i < |r.value| ==> |r.value[i].verts| == 3
  {
    var vs, ns := mesh.verts, mesh.normals;
    if !isFragmentized {
      var f := Fragmentize(mesh.verts, mesh.normals, mesh.tris);
      if f.Failure? {
        return Failure(f.error);
      }
      vs, ns := f.value.verts, f.value.normals;
    }
    if |vs| % 3 != 0 {
      return Failure(NotTriangles);
    }
    if |ns| < |vs| {
      return Failure(MissingNormal);
    }
    r := Success(Orient(oriented, plane, vs, ns));
  }

  /** Meshing a tree built from a triangle soup gives the soup back up to the winding of
      each triangle: the first corner stays and the other two are kept or swapped. */
  lemma MeshingSoup<V>(oriented: Oriented<V>, plane: Plane<V>, vs: seq<V>, ns: seq<V>, i: nat)
    requires |vs| % 3 == 0 && |ns| >= |vs| && i < |vs| / 3
    ensures |FanAll(Orient(oriented, plane, vs, ns))| == |vs|
    ensures FanAll(Orient(oriented, plane, vs, ns))[3 * i] == vs[3 * i]
    ensures multiset(FanAll(Orient(oriented, plane, vs, ns))[3 * i..3 * i + 3]) == multiset(vs[3 * i..3 * i + 3])
  {
    var ps := Orient(oriented, plane, vs, ns);
    TotalTriangles(ps);
    FanTriangles(ps, i);
    Thirds(|vs|);
    Below(i, |vs|);
    var k := 3 * i;
    var w := ps[i].verts;
    assert w == Wind(oriented, vs[k], vs[k + 1], vs[k + 2], ns[k]);
    assert FanAll(ps)[k..k + 3] == w;
    SoupAt(FanAll(ps), vs, k, w);
  }

  lemma Thirds(n: nat)
    requires n % 3 == 0
    ensures 3 * (n / 3) == n
  {
  }

  lemma Below(i: nat, n: nat)
    requires i < n / 3
    ensures 3 * i + 3 <= n
  {
  }

  lemma SoupAt<V>(f: seq<V>, vs: seq<V>, k: nat, w: seq<V>)
    requires k + 3 <= |f| && k + 3 <= |vs| && f[k..k + 3] == w
    requires |w| == 3 && w[0] == vs[k] && multiset(w) == multiset{vs[k], vs[k + 1], vs[k + 2]}
    ensures f[k] == vs[k] && multiset(f[k..k + 3]) == multiset(vs[k..k + 3])
  {
    assert f[k] == f[k..k + 3][0];
    Triple(vs, k);
  }

  lemma FanOfTriangle<V>(vs: seq<V>)
    requires |vs| == 3
    ensures Fan(vs) == vs
  {
    assert Fan(vs)[0..3] == FanTriangle(vs, 0);
  }

  lemma SliceLeft<V>(a: seq<V>, b: seq<V>, k: nat)
    requires k + 3 <= |a|
    ensures (a + b)[k..k + 3] == a[k..k + 3]
  {
  }

  lemma SliceRight<V>(a: seq<V>, b: seq<V>)
    requires |b| == 3
    ensures (a + b)[|a|..|a| + 3] == b
  {
  }

  lemma Triple<V>(s: seq<V>, k: nat)
    requires k + 3 <= |s|
    ensures s[k..k + 3] == [s[k], s[k + 1], s[k + 2]]
  {
  }
}
