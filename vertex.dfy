/**
 * Model of `vertex` in src/stlfile.cpp: the open-addressing table that gives
 * every distinct vertex of the mesh its number.
 *
 * The table is an array of `vhtcap` slots holding 0 for an empty slot and
 * `k + 1` for vertex `k`; a vertex is looked up by linear probing from its
 * hash. The invariant `Table` places every stored vertex relative to the
 * slot its probe starts from, whatever the hash; `Hashed` ties those start
 * slots to `final96`.
 */
module VertexTable {
  import opened Hash96
  import opened StlFile

  /** `~(vertex_t)0`, what `vertex` returns when the table is full. */
  const NotFound: int := 0xFFFF_FFFF

  // ---------------------------------------------------------------------
  // Counting
  // ---------------------------------------------------------------------

  /** Pigeonhole: `|xs|` different numbers below `n` need `|xs| <= n`. */
  lemma {:induction false} Pigeonhole(xs: seq<int>, n: nat)
    requires forall i :: 0 <= i < |xs| ==> 0 <= xs[i] < n
    requires forall i, j :: 0 <= i < j < |xs| ==> xs[i] != xs[j]
    ensures |xs| <= n
    decreases |xs|
  {
    if xs != [] {
      var x := xs[|xs| - 1];
      // the others, with the one equal to n - 1 (if any) renamed to x
      var ys := seq(|xs| - 1, i requires 0 <= i < |xs| - 1 => if xs[i] == n - 1 then x else xs[i]);
      forall i | 0 <= i < |ys|
        ensures 0 <= ys[i] < n - 1
      {
        assert xs[i] != x;
      }
      forall i, j | 0 <= i < j < |ys|
        ensures ys[i] != ys[j]
      {
        assert xs[i] != xs[j] && xs[i] != x && xs[j] != x;
      }
      Pigeonhole(ys, n - 1);
    }
  }

  /** Different numbers below `n`, none of them `s`, number fewer than `n`. */
  lemma Avoiding(xs: seq<int>, n: nat, s: int)
    requires 0 <= s < n
    requires forall i :: 0 <= i < |xs| ==> 0 <= xs[i] < n && xs[i] != s
    requires forall i, j :: 0 <= i < j < |xs| ==> xs[i] != xs[j]
    ensures |xs| < n
  {
    var ys := seq(|xs|, k requires 0 <= k < |xs| => if xs[k] < s then xs[k] else xs[k] - 1);
    forall a, b | 0 <= a < b < |ys|
      ensures ys[a] != ys[b]
    {
      assert xs[a] != xs[b];
    }
    Pigeonhole(ys, n - 1);
  }

  // ---------------------------------------------------------------------
  // The probe sequence
  // ---------------------------------------------------------------------

  /** The hash of a vertex: `final96` of its three words. */
  function Home(p: Point): int
  {
    Final96(p.x as Word, p.y as Word, p.z as Word) as int
  }

  /** The slot a vertex's probe starts from in a table of `cap` slots. */
  function Start(p: Point, cap: int): (x: int)
    requires 0 < cap
    ensures 0 <= x < cap
  {
    Home(p) % cap
  }

  /** Slot `j` of the probe sequence that starts at slot `x`: `j` slots on,
   *  wrapping round the end of the table. */
  function Probe(x: int, j: int, cap: int): (s: int)
    requires 0 <= x < cap && 0 <= j < cap
    ensures 0 <= s < cap
  {
    if x + j < cap then x + j else x + j - cap
  }

  /** A remainder modulo `big` keeps its remainder modulo any divisor `m` of `big`. */
  lemma ModOfMod(x: int, big: int, m: int)
    requires 0 < m && 0 < big && big % m == 0
    ensures (x % big) % m == x % m
  {
    var a := x / big;
    var b := big / m;
    assert big == b * m;
    assert x == a * big + x % big;
    assert a * big == (a * b) * m;
    ModUnique(x % big, m, x / m - a * b, x % m) by {
      assert x % big == x - (a * b) * m;
      assert x == (x / m) * m + x % m;
      assert x % big == (x / m) * m - (a * b) * m + x % m;
      assert (x / m) * m - (a * b) * m == (x / m - a * b) * m;
    }
  }

  /** The slot `vertex` computes, `(hash + j) & (cap - 1)` with the sum
   *  taken modulo 2^32 and the mask written as the remainder it is for a
   *  power-of-two `cap`, is slot `j` of the probe sequence from
   *  `hash % cap`. */
  lemma ProbeMask(h: int, j: int, cap: int)
    requires 0 < cap && 0x1_0000_0000 % cap == 0 && 0 <= j < cap
    ensures ((h + j) % 0x1_0000_0000) % cap == Probe(h % cap, j, cap)
  {
    ModOfMod(h + j, 0x1_0000_0000, cap);
    var q, x := h / cap, h % cap;
    assert h + j == q * cap + (x + j);
    if x + j < cap {
      ModUnique(h + j, cap, q, x + j);
    } else {
      ModUnique(h + j, cap, q + 1, x + j - cap) by {
        assert (q + 1) * cap == q * cap + cap;
      }
    }
  }

  /** The first `cap` probes from any start visit every slot. */
  lemma ProbeReaches(x: int, cap: int, s: int) returns (j: int)
    requires 0 <= x < cap && 0 <= s < cap
    ensures 0 <= j < cap && Probe(x, j, cap) == s
  {
    j := if x <= s then s - x else s - x + cap;
  }

  // ---------------------------------------------------------------------
  // The table invariant
  // ---------------------------------------------------------------------

  /** The slot recorded for the vertex a slot value `v` names: vertex
   *  `v - 1`. */
  ghost function SlotOf(slot: seq<int>, v: int): int
    requires 0 < v <= |slot|
  {
    slot[v - 1]
  }

  /** The table contents `t` hold the vertices `points`: a taken slot holds
   *  the vertex whose slot it is, so no vertex is in two slots; vertex `k`,
   *  whose probe starts at `starts[k]`, sits in slot `slot[k]`, reached
   *  after `dist[k]` steps; and every slot before it on its probe sequence
   *  is taken. */
  ghost predicate Table(t: seq<int>, points: seq<Point>, slot: seq<int>, dist: seq<int>, starts: seq<int>)
  {
    && |slot| == |points| && |dist| == |points| && |starts| == |points|
    && (forall s :: 0 <= s < |t| ==> 0 <= t[s] <= |points|)
    && (forall s {:trigger SlotOf(slot, t[s])} :: 0 <= s < |t| && t[s] != 0 ==> SlotOf(slot, t[s]) == s)
    && (forall k :: 0 <= k < |points| ==>
          && 0 <= starts[k] < |t| && 0 <= dist[k] < |t|
          && slot[k] == Probe(starts[k], dist[k], |t|) && t[slot[k]] == k + 1)
    && (forall k, j :: 0 <= k < |points| && 0 <= j < dist[k] ==> t[Probe(starts[k], j, |t|)] != 0)
  }

  /** The start slots `starts` are those `final96` gives the vertices. */
  ghost predicate Hashed(points: seq<Point>, starts: seq<int>, cap: int)
  {
    && |starts| == |points|
    && forall k {:trigger Start(points[k], cap)} :: 0 <= k < |points| ==> 0 < cap && starts[k] == Start(points[k], cap)
  }

  /** A table holds at most as many vertices as it has slots. */
  lemma TableBound(t: seq<int>, points: seq<Point>, slot: seq<int>, dist: seq<int>, starts: seq<int>)
    requires Table(t, points, slot, dist, starts)
    ensures |points| <= |t|
  {
    assert forall k :: 0 <= k < |slot| ==> 0 <= slot[k] < |t| && t[slot[k]] == k + 1;
    Pigeonhole(slot, |t|);
  }

  /** No vertex sits in an empty slot, so a table with an empty slot has
   *  room for one more vertex. */
  lemma TableVacant(t: seq<int>, points: seq<Point>, slot: seq<int>, dist: seq<int>, starts: seq<int>, s: int)
    requires Table(t, points, slot, dist, starts)
    requires 0 <= s < |t| && t[s] == 0
    ensures forall k :: 0 <= k < |points| ==> slot[k] != s
    ensures |points| < |t|
  {
    assert forall k :: 0 <= k < |slot| ==> 0 <= slot[k] < |t| && t[slot[k]] == k + 1;
    Avoiding(slot, |t|, s);
  }

  /** A table with every slot taken holds at least as many vertices as slots. */
  lemma TableFull(t: seq<int>, points: seq<Point>, slot: seq<int>, dist: seq<int>, starts: seq<int>, x: int)
    requires Table(t, points, slot, dist, starts)
    requires 0 <= x < |t|
    requires forall j :: 0 <= j < |t| ==> t[Probe(x, j, |t|)] != 0
    ensures |t| <= |points|
  {
    forall s | 0 <= s < |t|
      ensures t[s] != 0
    {
      var j := ProbeReaches(x, |t|, s);
    }
    var xs := seq(|t|, s requires 0 <= s < |t| => t[s] - 1);
    forall a, b | 0 <= a < b < |xs|
      ensures xs[a] != xs[b]
    {
      assert SlotOf(slot, t[a]) == a && SlotOf(slot, t[b]) == b;
    }
    Pigeonhole(xs, |points|);
  }

  /** Recording the start slot of one more vertex. */
  lemma HashedAppend(points: seq<Point>, starts: seq<int>, cap: int, p: Point)
    requires Hashed(points, starts, cap) && 0 < cap
    ensures Hashed(points + [p], starts + [Start(p, cap)], cap)
  {
    var ps, ss := points + [p], starts + [Start(p, cap)];
    forall k | 0 <= k < |ps|
      ensures ss[k] == Start(ps[k], cap)
    {
      if k < |points| {
        assert ps[k] == points[k] && Start(points[k], cap) == starts[k];
      }
    }
  }

  // ---------------------------------------------------------------------
  // One lookup
  // ---------------------------------------------------------------------

  /** The number `vertex` gives the point `p` when the table holds the
   *  vertices `points` in `cap` slots: the number of the vertex equal to
   *  `p`; else the next number, `|points|`, when a slot is free; else `~0`. */
  function VertexNumber(points: seq<Point>, p: Point, cap: int): int
  {
    var k := IndexOf(points, p);
    if k < |points| then k else if cap <= |points| then NotFound else k
  }

  /** What the number means: one below `|points|` names the first vertex
   *  equal to `p`; `|points|` says `p` is new and the table has room;
   *  `~0` says `p` is new and the table already holds `cap` vertices. */
  lemma VertexNumberCases(points: seq<Point>, p: Point, cap: int)
    requires |points| < NotFound
    ensures var r := VertexNumber(points, p, cap);
      && (r < |points| <==> p in points)
      && (0 <= r < |points| ==> points[r] == p && p !in points[..r])
      && (r == |points| <==> p !in points && |points| < cap)
      && (r == NotFound <==> p !in points && cap <= |points|)
  {
    var k := IndexOf(points, p);
    if k == |points| {
      assert p !in points;
    } else {
      assert points[k] == p;
    }
  }

  /** The probe for `p` from slot `x` has passed `i` taken slots, and any
   *  vertex equal to `p` starts at `x` and sits further along. */
  ghost predicate Searched(t: seq<int>, points: seq<Point>, dist: seq<int>, starts: seq<int>, p: Point, x: int, i: int)
  {
    && |dist| == |points| && |starts| == |points| && 0 <= x < |t| && 0 <= i <= |t|
    && (forall j :: 0 <= j < i ==> t[Probe(x, j, |t|)] != 0)
    && (forall k :: 0 <= k < |points| && points[k] == p ==> starts[k] == x && i <= dist[k])
  }

  /** Passing slot `i`, taken by a vertex other than `p`, keeps the search
   *  on track: `p`, if present, is further along. */
  lemma SearchStep(t: seq<int>, points: seq<Point>, slot: seq<int>, dist: seq<int>, starts: seq<int>, p: Point, x: int, i: int)
    requires Table(t, points, slot, dist, starts)
    requires Searched(t, points, dist, starts, p, x, i) && i < |t|
    requires var v := t[Probe(x, i, |t|)]; v != 0 && points[v - 1] != p
    ensures Searched(t, points, dist, starts, p, x, i + 1)
  {
    forall k | 0 <= k < |points| && points[k] == p
      ensures i + 1 <= dist[k]
    {
      assert t[slot[k]] == k + 1 && slot[k] == Probe(x, dist[k], |t|);
    }
  }

  /** Meeting an empty slot: `p` is not in the table. */
  lemma TableMiss(t: seq<int>, points: seq<Point>, slot: seq<int>, dist: seq<int>, starts: seq<int>, p: Point, x: int, i: int)
    requires Table(t, points, slot, dist, starts)
    requires Searched(t, points, dist, starts, p, x, i) && i < |t|
    requires t[Probe(x, i, |t|)] == 0
    ensures forall k :: 0 <= k < |points| ==> points[k] != p
  {
    TableVacant(t, points, slot, dist, starts, Probe(x, i, |t|));
  }

  /** Storing a new vertex in the empty slot its probe reached keeps the
   *  table consistent. */
  lemma TableInsert(t: seq<int>, points: seq<Point>, slot: seq<int>, dist: seq<int>, starts: seq<int>, p: Point, x: int, i: int, s: int)
    requires Table(t, points, slot, dist, starts)
    requires 0 <= x < |t| && 0 <= i < |t| && s == Probe(x, i, |t|) && t[s] == 0
    requires forall j :: 0 <= j < i ==> t[Probe(x, j, |t|)] != 0
    ensures Table(t[s := |points| + 1], points + [p], slot + [s], dist + [i], starts + [x])
  {
    var t', ps, sl, ds, ss := t[s := |points| + 1], points + [p], slot + [s], dist + [i], starts + [x];
    assert |t'| == |t|;
    forall k, j | 0 <= k < |ps| && 0 <= j < ds[k]
      ensures t'[Probe(ss[k], j, |t'|)] != 0
    {
    }
    forall a | 0 <= a < |t'|
      ensures 0 <= t'[a] <= |ps|
      ensures t'[a] != 0 ==> SlotOf(sl, t'[a]) == a
    {
      if a != s {
        assert t'[a] == t[a];
        if t[a] != 0 {
          assert SlotOf(slot, t[a]) == a;
        }
      }
    }
    forall k | 0 <= k < |ps|
      ensures 0 <= ss[k] < |t'| && 0 <= ds[k] < |t'| && sl[k] == Probe(ss[k], ds[k], |t'|) && t'[sl[k]] == k + 1
    {
      if k < |points| {
        assert t[slot[k]] == k + 1;
      }
    }
  }

  /** The vertex buffer `verts` holds the vertices `points`, vertex `k` in
   *  words `3k` to `3k + 2`. */
  ghost predicate Stored(verts: seq<U32>, points: seq<Point>)
  {
    && 3 * |points| <= |verts|
    && forall k :: 0 <= k < |points| ==> Point(verts[3 * k], verts[3 * k + 1], verts[3 * k + 2]) == points[k]
  }

  /** A buffer holding the vertices starts with their flattened words. */
  lemma {:induction false} StoredFlatten(verts: seq<U32>, points: seq<Point>)
    requires Stored(verts, points)
    ensures verts[..3 * |points|] == Flatten(points)
    decreases |points|
  {
    if points != [] {
      var n := |points| - 1;
      var init := points[..n];
      assert Stored(verts, init) by {
        forall k | 0 <= k < n
          ensures Point(verts[3 * k], verts[3 * k + 1], verts[3 * k + 2]) == init[k]
        {
          assert init[k] == points[k];
        }
      }
      StoredFlatten(verts, init);
      assert Point(verts[3 * n], verts[3 * n + 1], verts[3 * n + 2]) == points[n];
      assert verts[..3 * n + 3] == verts[..3 * n] + Words(points[n]);
    }
  }

  /** The number `vertex` gives is the table-free numbering's next step:
   *  `~0` exactly when that step fails with a full table, and otherwise the
   *  number it records, the point being added when the number is new. */
  lemma VertexAgrees(acc: Acc, p: Point, cap: int, vi: int)
    requires |acc.points| < NotFound && vi == VertexNumber(acc.points, p, cap)
    ensures vi == NotFound <==> AddCorner(acc, p, cap) == Err(HashFull)
    ensures vi != NotFound ==>
      AddCorner(acc, p, cap) == Ok(Acc(if vi == |acc.points| then acc.points + [p] else acc.points, acc.tris + [vi]))
  {
  }

  /** The probe met vertex `vi`, equal to `p`: among different vertices,
   *  its number is the answer. */
  lemma VertexFound(points: seq<Point>, p: Point, cap: int, vi: int)
    requires Distinct(points) && 0 <= vi < |points| && points[vi] == p
    ensures VertexNumber(points, p, cap) == vi
  {
  }

  /** The probe met an empty slot `s`, every earlier slot of the sequence
   *  being taken by other vertices: `p` is new, gets the next number, and
   *  storing it at `s` keeps the table consistent. */
  lemma VertexFresh(t: seq<int>, points: seq<Point>, slot: seq<int>, dist: seq<int>, starts: seq<int>, p: Point, x: int, i: int, s: int)
    requires Table(t, points, slot, dist, starts)
    requires Searched(t, points, dist, starts, p, x, i) && i < |t|
    requires s == Probe(x, i, |t|) && t[s] == 0
    ensures VertexNumber(points, p, |t|) == |points|
    ensures Table(t[s := |points| + 1], points + [p], slot + [s], dist + [i], starts + [x])
  {
    TableMiss(t, points, slot, dist, starts, p, x, i);
    TableVacant(t, points, slot, dist, starts, s);
    TableInsert(t, points, slot, dist, starts, p, x, i, s);
  }

  /** The probe went through all `|t|` slots without meeting `p` or an
   *  empty slot (or the table has no slots): the table is full and `p` is
   *  new. */
  lemma VertexFull(t: seq<int>, points: seq<Point>, slot: seq<int>, dist: seq<int>, starts: seq<int>, p: Point, x: int)
    requires Table(t, points, slot, dist, starts) && |t| <= 0x8000_0000
    requires 0 < |t| ==> Searched(t, points, dist, starts, p, x, |t|)
    ensures VertexNumber(points, p, |t|) == NotFound
    ensures |points| != NotFound
  {
    TableBound(t, points, slot, dist, starts);
    if 0 < |t| {
      TableFull(t, points, slot, dist, starts, x);
    }
  }

  /** `final96` of the key, as an integer; the slot it starts the probe
   *  from is the recorded start of every stored vertex equal to the key. */
  method Hash(vert: array<U32>, vhtcap: int, ghost points: seq<Point>, ghost starts: seq<int>) returns (h: int)
    requires vert.Length == 3 && Hashed(points, starts, vhtcap)
    ensures 0 <= h < 0x1_0000_0000
    ensures 0 < vhtcap ==>
      var p := Point(vert[0], vert[1], vert[2]);
      && (forall k :: 0 <= k < |points| && points[k] == p ==> starts[k] == h % vhtcap)
      && Hashed(points + [p], starts + [h % vhtcap], vhtcap)
  {
    var hash := Final96(vert[0] as Word, vert[1] as Word, vert[2] as Word);
    h := hash as int;
    ghost var p := Point(vert[0], vert[1], vert[2]);
    if 0 < vhtcap {
      assert h % vhtcap == Start(p, vhtcap);
      HashedAppend(points, starts, vhtcap, p);
      forall k | 0 <= k < |points| && points[k] == p
        ensures starts[k] == h % vhtcap
      {
        assert starts[k] == Start(points[k], vhtcap);
      }
    }
  }

  /** `vertex`: look the point `vert` up in the table `vht` of `vhtcap`
   *  slots, probing linearly from its hash. A vertex already stored gets
   *  its number; a new one is entered as number `nverts`, unless no slot is
   *  free, when the result is `~0`. The caller copies a new vertex into the
   *  buffer. */
  method Vertex(verts: array<U32>, nverts: int, vht: array<int>, vhtcap: int, vert: array<U32>,
                ghost points: seq<Point>, ghost slot: seq<int>, ghost dist: seq<int>, ghost starts: seq<int>)
    returns (r: int, ghost slot': seq<int>, ghost dist': seq<int>, ghost starts': seq<int>)
    requires nverts == |points| && vhtcap == vht.Length && vert.Length == 3
    requires vhtcap == 0 || (0x1_0000_0000 % vhtcap == 0 && vhtcap <= 0x8000_0000)
    requires Stored(verts[..], points) && Distinct(points) && Table(vht[..], points, slot, dist, starts) && Hashed(points, starts, vhtcap)
    modifies vht
    ensures r == VertexNumber(points, old(Point(vert[0], vert[1], vert[2])), vhtcap)
    ensures r == nverts ==>
      var ps := points + [old(Point(vert[0], vert[1], vert[2]))];
      && Table(vht[..], ps, slot', dist', starts') && Hashed(ps, starts', vhtcap)
      && 0 <= slot'[nverts] < vhtcap && old(vht[slot'[nverts]]) == 0 && vht[..] == old(vht[..])[slot'[nverts] := nverts + 1]
    ensures r != nverts ==> vht[..] == old(vht[..])
  {
    ghost var p := Point(vert[0], vert[1], vert[2]);
    ghost var t := vht[..];
    var h := Hash(vert, vhtcap, points, starts);
    if vhtcap == 0 {
      VertexFull(t, points, slot, dist, starts, p, 0);
      return NotFound, slot, dist, starts;
    }
    ghost var x := h % vhtcap;
    var i := 0;
    while i < vhtcap
      invariant 0 <= i <= vhtcap
      invariant vht[..] == t
      invariant Searched(t, points, dist, starts, p, x, i)
    {
      var s := ((h + i) % 0x1_0000_0000) % vhtcap;
      ProbeMask(h, i, vhtcap);
      var vi := vht[s];
      if vi == 0 {
        VertexFresh(t, points, slot, dist, starts, p, x, i, s);
        vht[s] := nverts + 1;
        assert vht[..] == t[s := nverts + 1];
        return nverts, slot + [s], dist + [i], starts + [x];
      }
      vi := vi - 1;
      assert Point(verts[3 * vi], verts[3 * vi + 1], verts[3 * vi + 2]) == points[vi];
      var c := Cmp96(vert, verts, 3 * vi);
      if c == 0 {
        VertexFound(points, p, vhtcap, vi);
        return vi, slot, dist, starts;
      }
      SearchStep(t, points, slot, dist, starts, p, x, i);
      i := i + 1;
    }
    VertexFull(t, points, slot, dist, starts, p, x);
    return NotFound, slot, dist, starts;
  }
}
