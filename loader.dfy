/**
 * Model of `loadstl` in src/stlfile.cpp step by step: the loop over the
 * triangle records, the vertex table it fills through `vertex`, and the
 * early exits. The buffers are allocated at their full sizes, `3 * ntris`
 * and `9 * ntris`, not at the 32-bit products the program computes (those
 * are `TrisAllocatedAsWritten` and `VertsAllocatedAsWritten` below). With
 * that correction `LoadStl` is proved to give exactly what the table-free
 * definition `Load` gives.
 */
module Loader {
  import opened Hash96
  import opened StlFile
  import opened VertexTable

  // ---------------------------------------------------------------------
  // Record counting
  // ---------------------------------------------------------------------

  /** Records before the first one cut short by the end of file: if record
   *  `i` is the first that does not fit, `i` records are available. */
  lemma {:induction false} AvailableAt(file: seq<Byte>, body: nat, n: nat, i: nat)
    requires i < n && body + 50 * i <= |file| < body + 50 * (i + 1)
    ensures Available(file, body, n) == i
    decreases n
  {
    if n - 1 > i {
      AvailableAt(file, body, n - 1, i);
    }
  }

  /** Records that fit in the file are all available. */
  lemma {:induction false} AvailableAtLeast(file: seq<Byte>, body: nat, n: nat, j: nat)
    requires j <= n && body + 50 * j <= |file|
    ensures j <= Available(file, body, n)
    decreases n
  {
    if j < n && |file| < body + 50 * n {
      AvailableAtLeast(file, body, n - 1, j);
    }
  }

  // ---------------------------------------------------------------------
  // One corner at a time
  // ---------------------------------------------------------------------

  /** `copy96` of the point `p` to the end of the buffer stores it as the
   *  next vertex and keeps the vertices before it. */
  lemma StoredCopy(before: seq<U32>, after: seq<U32>, ps: seq<Point>, p: Point)
    requires Stored(before, ps) && 3 * |ps| + 3 <= |after| == |before|
    requires after[3 * |ps|] == p.x && after[3 * |ps| + 1] == p.y && after[3 * |ps| + 2] == p.z
    requires forall i :: 0 <= i < |after| && !(3 * |ps| <= i < 3 * |ps| + 3) ==> after[i] == before[i]
    ensures Stored(after, ps + [p])
  {
    var qs := ps + [p];
    forall k | 0 <= k < |qs|
      ensures Point(after[3 * k], after[3 * k + 1], after[3 * k + 2]) == qs[k]
    {
      if k < |ps| {
        assert qs[k] == ps[k] == Point(before[3 * k], before[3 * k + 1], before[3 * k + 2]);
      }
    }
  }

  /** The numbering after corner `p` got vertex number `vi`: `p` is
   *  appended to the vertices when the number is new. */
  function Extend(acc: Acc, p: Point, vi: int): Acc
  {
    Acc(if vi == |acc.points| then acc.points + [p] else acc.points, acc.tris + [vi])
  }

  /** The numberings the corner loop goes through from `acc` on, one per
   *  corner of `ps` numbered: entry `c` is the numbering after `c`
   *  corners, and the run stops early at the first corner that finds the
   *  table full. */
  ghost function Run(acc: Acc, ps: seq<Point>, cap: int): (rs: seq<Acc>)
    ensures 1 <= |rs| <= |ps| + 1 && rs[0] == acc
    decreases |ps|
  {
    if ps == [] then [acc]
    else
      var rs := Run(acc, ps[..|ps| - 1], cap);
      if |rs| < |ps| then rs
      else
        match AddCorner(rs[|ps| - 1], ps[|ps| - 1], cap)
        case Err(_) => rs
        case Ok(a) => rs + [a]
  }

  /** Each step of the run numbers one corner, and the run stops exactly
   *  where a corner finds the table full. */
  lemma {:induction false} RunStep(acc: Acc, ps: seq<Point>, cap: int, c: nat)
    requires c < |ps| && c < |Run(acc, ps, cap)|
    ensures var rs := Run(acc, ps, cap);
      if c + 1 < |rs| then AddCorner(rs[c], ps[c], cap) == Ok(rs[c + 1]) else AddCorner(rs[c], ps[c], cap).Err?
    decreases |ps|
  {
    var init := ps[..|ps| - 1];
    if c < |init| {
      RunStep(acc, init, cap, c);
      assert init[c] == ps[c];
    }
  }

  /** A run that numbered every corner ends at the numbering `AddCorners`
   *  gives; one that stopped early means the table filled up. */
  lemma {:induction false} RunResult(acc: Acc, ps: seq<Point>, cap: int)
    ensures var rs := Run(acc, ps, cap);
      AddCorners(acc, ps, cap) == if |rs| == |ps| + 1 then Ok(rs[|ps|]) else Err(HashFull)
    decreases |ps|
  {
    if ps != [] {
      RunResult(acc, ps[..|ps| - 1], cap);
    }
  }

  /** The number `vertex` gives corner `c` from the numbering the run has
   *  reached: `~0` exactly where the run stops, and otherwise the step the
   *  run takes. */
  lemma RunCorner(ps: seq<Point>, cap: int, c: nat, vi: int)
    requires c < |ps| && c < |Run(Acc([], []), ps, cap)|
    requires var a := Run(Acc([], []), ps, cap)[c]; |a.points| < NotFound && vi == VertexNumber(a.points, ps[c], cap)
    ensures var rs := Run(Acc([], []), ps, cap);
      && (vi == NotFound <==> c + 1 == |rs|)
      && (vi != NotFound ==> rs[c + 1] == Extend(rs[c], ps[c], vi))
  {
    var rs := Run(Acc([], []), ps, cap);
    RunStep(Acc([], []), ps, cap, c);
    VertexAgrees(rs[c], ps[c], cap, vi);
  }

  // ---------------------------------------------------------------------
  // One record at a time
  // ---------------------------------------------------------------------

  /** Record `i`, as `fread` copies it out of the file. */
  function Record(file: seq<Byte>, body: nat, i: nat): (rec: seq<Byte>)
    requires body + 50 * (i + 1) <= |file|
    ensures |rec| == 50
  {
    file[body + 50 * i..body + 50 * (i + 1)]
  }

  /** A 32-bit field read from the copy of a record is the field read
   *  from the file. */
  lemma Get32Within(file: seq<Byte>, pos: nat, off: nat)
    requires pos + 50 <= |file| && off + 4 <= 50
    ensures Get32(file[pos..pos + 50], off) == Get32(file, pos + off)
  {
    var rec := file[pos..pos + 50];
    assert rec[off] == file[pos + off] && rec[off + 1] == file[pos + off + 1];
    assert rec[off + 2] == file[pos + off + 2] && rec[off + 3] == file[pos + off + 3];
  }

  /** A corner read from the copy of record `i` is the corner of the
   *  record in the file. */
  lemma RecordCorner(file: seq<Byte>, body: nat, i: nat, t: nat)
    requires body + 50 * (i + 1) <= |file| && t < 3
    ensures Corner(Record(file, body, i), 0, t) == Corner(file, body + 50 * i, t)
  {
    var pos := body + 50 * i;
    Get32Within(file, pos, 12 + 12 * t);
    Get32Within(file, pos, 16 + 12 * t);
    Get32Within(file, pos, 20 + 12 * t);
  }

  /** The attribute read from the copy of record `i` is the attribute of
   *  the record in the file. */
  lemma RecordAttr(file: seq<Byte>, body: nat, i: nat)
    requires body + 50 * (i + 1) <= |file|
    ensures Get16(Record(file, body, i), 48) == Attr(file, body + 50 * i)
  {
    var rec, pos := Record(file, body, i), body + 50 * i;
    assert rec[48] == file[pos + 48] && rec[49] == file[pos + 49];
  }

  /** The corners `cs` and the attributes `ws` have, at entries `3i`,
   *  `3i + 1`, `3i + 2` and at entry `i`, what the copy of record `i`
   *  holds. */
  ghost predicate RecordAt(file: seq<Byte>, body: nat, cs: seq<Point>, ws: seq<U16>, i: nat)
  {
    && body + 50 * (i + 1) <= |file| && 3 * i + 3 <= |cs| && i < |ws|
    && (forall t :: 0 <= t < 3 ==> cs[3 * i + t] == Corner(Record(file, body, i), 0, t))
    && ws[i] == Get16(Record(file, body, i), 48)
  }

  /** The corners and the attribute read from the copied record `i` are
   *  those the corner list and the attribute list of any `m` records that
   *  include it have for it. */
  lemma RecordFields(file: seq<Byte>, body: nat, i: nat, m: nat)
    requires i < m && body + 50 * m <= |file|
    ensures RecordAt(file, body, CornerList(file, body, m), AttrList(file, body, m), i)
  {
    forall t | 0 <= t < 3
      ensures CornerList(file, body, m)[3 * i + t] == Corner(Record(file, body, i), 0, t)
    {
      RecordCorner(file, body, i, t);
      CornerListAt(file, body, m, i, t);
    }
    RecordAttr(file, body, i);
    AttrListAt(file, body, m, i);
  }

  /** How the main loop ends, in terms of the run over the corners of the
   *  records present: a run that stopped early is a full table; otherwise
   *  a missing record is a short read, and with every record present the
   *  loop gives the run's last numbering and the attributes. */
  lemma DecodeRun(file: seq<Byte>, body: nat, cap: int, n: nat)
    requires body <= |file|
    ensures var m := Available(file, body, n);
      var cs := CornerList(file, body, m);
      var rs := Run(Acc([], []), cs, cap);
      DecodeTriangles(file, body, cap, n) ==
        if |rs| <= |cs| then Err(HashFull)
        else if m < n then Err(ShortTriangle)
        else Ok((rs[|cs|], AttrList(file, body, m)))
  {
    RunResult(Acc([], []), CornerList(file, body, Available(file, body, n)), cap);
  }

  // ---------------------------------------------------------------------
  // loadstl
  // ---------------------------------------------------------------------

  /** The words of corner `t` of the record `rec`, read into a fresh
   *  three-word key. */
  method ReadCorner(rec: seq<Byte>, t: nat) returns (vert: array<U32>)
    requires |rec| == 50 && t < 3
    ensures fresh(vert) && vert.Length == 3
    ensures Point(vert[0], vert[1], vert[2]) == Corner(rec, 0, t)
  {
    vert := new U32[3];
    vert[0] := Get32(rec, 12 + 12 * t);
    vert[1] := Get32(rec, 16 + 12 * t);
    vert[2] := Get32(rec, 20 + 12 * t);
  }

  /** `nextpow2(4 * ntris)` for the count at `off`, in 32-bit arithmetic:
   *  the table size for that count, a power of two dividing 2^32 (or 0). */
  method TableSlots(file: seq<Byte>, off: nat) returns (vhtcap: int)
    requires off + 4 <= |file|
    ensures vhtcap == TableSize(Get32(file, off))
    ensures vhtcap == 0 || (0x1_0000_0000 % vhtcap == 0 && vhtcap <= 0x8000_0000)
  {
    var ntris := Get32Bits(file, off);
    vhtcap := NextPow2(4 * ntris) as int;
    TableSizeOf(file, off);
    NextPow2AsInt(4 * ntris);
  }

  /** `copy96(verts + 3 * nverts, vert)`: append the key to the vertex
   *  buffer. */
  method AppendVertex(verts: array<U32>, nverts: int, vert: array<U32>, ghost points: seq<Point>)
    requires nverts == |points| && 3 * nverts + 3 <= verts.Length && vert.Length == 3 && verts != vert
    requires Stored(verts[..], points)
    modifies verts
    ensures Stored(verts[..], points + [Point(vert[0], vert[1], vert[2])])
  {
    ghost var before := verts[..];
    Copy96(verts, 3 * nverts, vert);
    StoredCopy(before, verts[..], points, Point(vert[0], vert[1], vert[2]));
  }

  /** `a[q] = v` after the entries `written` (`tris[3 * i + ti] = vi`,
   *  `attrs[i] = get16(buf + 48)`): the written prefix grows by `v`. */
  method SetNext<T>(a: array<T>, q: nat, v: T, ghost written: seq<T>)
    requires q < a.Length && a[..q] == written
    modifies a
    ensures a[..q + 1] == written + [v]
  {
    a[q] := v;
    assert a[..q + 1] == a[..q] + [v];
  }

  /** The buffers hold the numbering `a` of the first `q` corners: the
   *  vertex buffer `verts` its `nverts` vertices, `tris` their numbers,
   *  and the table `t` every vertex, probed for from the slot `final96`
   *  gives it. */
  ghost predicate Holds(verts: seq<U32>, t: seq<int>, tris: seq<int>, nverts: int, q: nat, a: Acc,
                        slot: seq<int>, dist: seq<int>, starts: seq<int>)
  {
    && nverts == |a.points| <= q <= |tris|
    && Distinct(a.points) && Stored(verts, a.points) && tris[..q] == a.tris
    && Table(t, a.points, slot, dist, starts) && Hashed(a.points, starts, |t|)
  }

  /** Empty buffers and a table of empty slots hold the numbering of no
   *  corners. */
  lemma HoldsStart(verts: seq<U32>, vht: array<int>, tris: seq<int>)
    requires forall s :: 0 <= s < vht.Length ==> vht[s] == 0
    ensures Holds(verts, vht[..], tris, 0, 0, Acc([], []), [], [], [])
  {
    assert tris[..0] == [];
  }

  /** Buffers holding the numbering of all the corners give its vertices,
   *  flattened, and its corner numbers. */
  lemma HoldsAll(verts: seq<U32>, t: seq<int>, tris: seq<int>, nverts: int, a: Acc,
                 slot: seq<int>, dist: seq<int>, starts: seq<int>)
    requires Holds(verts, t, tris, nverts, |tris|, a, slot, dist, starts)
    ensures 3 * nverts <= |verts| && verts[..3 * nverts] == Flatten(a.points) && tris == a.tris
  {
    assert tris[..|tris|] == tris;
    StoredFlatten(verts, a.points);
  }

  /** Numbering corner `c` of the run's corner list moves the buffers from
   *  the run's `c`-th accumulator to its next one, unless the table is
   *  full, which is where the run stops. */
  lemma HoldsNext(verts: seq<U32>, t: seq<int>, tris: seq<int>, nverts: int, cs: seq<Point>, cap: int,
                  c: nat, vi: int, slot: seq<int>, dist: seq<int>, starts: seq<int>)
    requires c < |cs| && c < |Run(Acc([], []), cs, cap)|
    requires var a := Run(Acc([], []), cs, cap)[c]; |a.points| < NotFound && vi == VertexNumber(a.points, cs[c], cap)
    requires vi != NotFound ==>
      Holds(verts, t, tris, nverts, c + 1, Extend(Run(Acc([], []), cs, cap)[c], cs[c], vi), slot, dist, starts)
    ensures vi == NotFound <==> c + 1 == |Run(Acc([], []), cs, cap)|
    ensures vi != NotFound ==> Holds(verts, t, tris, nverts, c + 1, Run(Acc([], []), cs, cap)[c + 1], slot, dist, starts)
  {
    RunCorner(cs, cap, c, vi);
  }

  /** One pass of the corner loop of `loadstl`: read corner `t` of the
   *  record `rec`, look it up with `vertex`, copy it to the end of the
   *  vertex buffer if it is new, and store its vertex number at `tris[q]`
   *  unless the table is full. */
  method NumberCorner(rec: seq<Byte>, t: nat, verts: array<U32>, nverts: int, vht: array<int>, tris: array<int>, q: nat,
                      ghost acc: Acc, ghost slot: seq<int>, ghost dist: seq<int>, ghost starts: seq<int>)
    returns (vi: int, nverts': int, ghost slot': seq<int>, ghost dist': seq<int>, ghost starts': seq<int>)
    requires |rec| == 50 && t < 3 && q < tris.Length && tris != vht
    requires vht.Length == 0 || (0x1_0000_0000 % vht.Length == 0 && vht.Length <= 0x8000_0000)
    requires 3 * nverts + 3 <= verts.Length && Holds(verts[..], vht[..], tris[..], nverts, q, acc, slot, dist, starts)
    modifies verts, vht, tris
    ensures |acc.points| <= vht.Length
    ensures vi == VertexNumber(acc.points, Corner(rec, 0, t), vht.Length)
    ensures vi != NotFound ==>
      Holds(verts[..], vht[..], tris[..], nverts', q + 1, Extend(acc, Corner(rec, 0, t), vi), slot', dist', starts')
  {
    TableBound(vht[..], acc.points, slot, dist, starts);
    var vert := ReadCorner(rec, t);
    vi, slot', dist', starts' := Vertex(verts, nverts, vht, vht.Length, vert, acc.points, slot, dist, starts);
    nverts' := nverts;
    if vi == NotFound {
      return;
    }
    if vi == nverts {
      assert tris as object != verts && vht as object != verts;
      AppendVertex(verts, nverts, vert, acc.points);
      DistinctAppend(acc.points, Corner(rec, 0, t));
      nverts' := nverts + 1;
    } else {
      slot', dist', starts' := slot, dist, starts;
    }
    SetNext(tris, q, vi, acc.tris);
  }

  /** Corner `c` of the run's corner list, the corner `ti` of `rec`, taken
   *  through `NumberCorner`: the step succeeds exactly when the run gets
   *  past the corner, and the buffers then hold the run's next
   *  accumulator. */
  method NumberStep(rec: seq<Byte>, ti: nat, verts: array<U32>, nverts: int, vht: array<int>, tris: array<int>, c: nat,
                    ghost cs: seq<Point>, ghost rs: seq<Acc>, ghost slot: seq<int>, ghost dist: seq<int>, ghost starts: seq<int>)
    returns (ok: bool, nverts': int, ghost slot': seq<int>, ghost dist': seq<int>, ghost starts': seq<int>)
    requires |rec| == 50 && ti < 3 && c < |cs| && cs[c] == Corner(rec, 0, ti)
    requires rs == Run(Acc([], []), cs, vht.Length) && c < |rs|
    requires c < tris.Length && tris != vht
    requires vht.Length == 0 || (0x1_0000_0000 % vht.Length == 0 && vht.Length <= 0x8000_0000)
    requires 3 * nverts + 3 <= verts.Length && Holds(verts[..], vht[..], tris[..], nverts, c, rs[c], slot, dist, starts)
    modifies verts, vht, tris
    ensures ok <==> c + 1 < |rs|
    ensures ok ==> Holds(verts[..], vht[..], tris[..], nverts', c + 1, rs[c + 1], slot', dist', starts')
  {
    var vi;
    vi, nverts', slot', dist', starts' := NumberCorner(rec, ti, verts, nverts, vht, tris, c, rs[c], slot, dist, starts);
    HoldsNext(verts[..], vht[..], tris[..], nverts', cs, vht.Length, c, vi, slot', dist', starts');
    ok := vi != NotFound;
  }

  /** The corner loop of `loadstl` for the record `rec`, whose corners are
   *  entries `q`, `q + 1`, `q + 2` of the corner list `cs`, with the run
   *  `rs` over `cs`: the buffers start as the numbering after `q` corners
   *  says, and the corner numbers go to `tris[q..q + 3]`. The record is
   *  numbered in full exactly when the run gets past it, and the buffers
   *  then hold the numbering after `q + 3` corners. */
  method ReadRecord(rec: seq<Byte>, verts: array<U32>, nverts: int, vht: array<int>, tris: array<int>, q: nat,
                    ghost cs: seq<Point>, ghost rs: seq<Acc>, ghost slot: seq<int>, ghost dist: seq<int>, ghost starts: seq<int>)
    returns (ok: bool, nverts': int, ghost slot': seq<int>, ghost dist': seq<int>, ghost starts': seq<int>)
    requires |rec| == 50 && q + 3 <= |cs| && forall t :: 0 <= t < 3 ==> cs[q + t] == Corner(rec, 0, t)
    requires rs == Run(Acc([], []), cs, vht.Length) && q < |rs|
    requires q + 3 <= tris.Length && tris != vht
    requires vht.Length == 0 || (0x1_0000_0000 % vht.Length == 0 && vht.Length <= 0x8000_0000)
    requires 3 * (q + 3) <= verts.Length && Holds(verts[..], vht[..], tris[..], nverts, q, rs[q], slot, dist, starts)
    modifies verts, vht, tris
    ensures ok <==> q + 3 < |rs|
    ensures ok ==> Holds(verts[..], vht[..], tris[..], nverts', q + 3, rs[q + 3], slot', dist', starts')
  {
    nverts', slot', dist', starts' := nverts, slot, dist, starts;
    var ti, c := 0, q;
    while ti < 3
      invariant 0 <= ti <= 3 && c == q + ti && c < |rs|
      invariant Holds(verts[..], vht[..], tris[..], nverts', c, rs[c], slot', dist', starts')
    {
      assert cs[c] == Corner(rec, 0, ti);
      ok, nverts', slot', dist', starts' := NumberStep(rec, ti, verts, nverts', vht, tris, c, cs, rs, slot', dist', starts');
      if !ok {
        return;
      }
      ti, c := ti + 1, c + 1;
    }
    ok := true;
  }

  /** One pass of the triangle loop of `loadstl`: read record `i`, number
   *  its corners and store its attribute at `attrs[i]`. The buffers start
   *  as the run over the corner list `cs` says after `3 * i` corners; the
   *  record is taken in full exactly when the run gets past it, and the
   *  buffers then hold the numbering after `3 * i + 3` corners. */
  method ReadTriangle(file: seq<Byte>, body: nat, i: nat, ghost m: nat,
                      tris: array<int>, attrs: array<U16>, verts: array<U32>, nverts: int, vht: array<int>,
                      q: nat, ghost cs: seq<Point>, ghost ws: seq<U16>, ghost rs: seq<Acc>,
                      ghost slot: seq<int>, ghost dist: seq<int>, ghost starts: seq<int>)
    returns (ok: bool, nverts': int, ghost slot': seq<int>, ghost dist': seq<int>, ghost starts': seq<int>)
    requires i < m && RecordAt(file, body, cs, ws, i)
    requires rs == Run(Acc([], []), cs, vht.Length) && q == 3 * i && q < |rs|
    requires tris != vht
    requires 3 * m <= tris.Length && m <= attrs.Length && 9 * m <= verts.Length
    requires vht.Length == 0 || (0x1_0000_0000 % vht.Length == 0 && vht.Length <= 0x8000_0000)
    requires Holds(verts[..], vht[..], tris[..], nverts, q, rs[q], slot, dist, starts) && attrs[..i] == ws[..i]
    modifies tris, attrs, verts, vht
    ensures ok <==> q + 3 < |rs|
    ensures ok ==> Holds(verts[..], vht[..], tris[..], nverts', q + 3, rs[q + 3], slot', dist', starts') && attrs[..i + 1] == ws[..i + 1]
  {
    assert attrs as object != tris && attrs as object != vht && attrs as object != verts;
    var rec := Record(file, body, i);
    ok, nverts', slot', dist', starts' := ReadRecord(rec, verts, nverts, vht, tris, q, cs, rs, slot, dist, starts);
    if ok {
      SetNext(attrs, i, Get16(rec, 48), ws[..i]);
      assert ws[..i + 1] == ws[..i] + [ws[i]];
    }
  }

  /** The main loop of `loadstl`: read `ntris` records from `body` on,
   *  number their corners through `vertex` with the empty table `vht`,
   *  copy each new vertex to the end of `verts` and store the vertex
   *  numbers in `tris` and the attributes in `attrs`. The file holds `m`
   *  of the records in full, with the corners `cs` and the attributes
   *  `ws`, and `rs` is the run over `cs`. The loop stops at the first
   *  record whose corners find the table full, else at the first missing
   *  record; on success it gives the vertex count, and the buffers hold
   *  the numbering at the end of the run. */
  method ReadRecords(file: seq<Byte>, body: nat, ntris: nat,
                     tris: array<int>, attrs: array<U16>, verts: array<U32>, vht: array<int>,
                     ghost m: nat, ghost cs: seq<Point>, ghost ws: seq<U16>, ghost rs: seq<Acc>)
    returns (r: Result<nat, LoadError>)
    requires m <= ntris && body + 50 * m <= |file| && (m < ntris ==> |file| < body + 50 * (m + 1))
    requires |cs| == 3 * m && |ws| == m && forall j :: 0 <= j < m ==> RecordAt(file, body, cs, ws, j)
    requires rs == Run(Acc([], []), cs, vht.Length)
    requires tris != vht
    requires tris.Length == 3 * ntris && attrs.Length == ntris && verts.Length == 3 * ntris * 3
    requires vht.Length == 0 || (0x1_0000_0000 % vht.Length == 0 && vht.Length <= 0x8000_0000)
    requires forall s :: 0 <= s < vht.Length ==> vht[s] == 0
    modifies tris, attrs, verts, vht
    ensures r.Err? ==> (r.error == HashFull && |rs| <= |cs|) || (r.error == ShortTriangle && |cs| < |rs| && m < ntris)
    ensures r.Ok? ==>
      && m == ntris && |cs| < |rs| && r.value == |rs[|cs|].points| && 3 * r.value <= verts.Length
      && verts[..3 * r.value] == Flatten(rs[|cs|].points) && tris[..] == rs[|cs|].tris && attrs[..] == ws
  {
    assert tris as object != verts && vht as object != verts;
    assert attrs as object != tris && attrs as object != vht && attrs as object != verts;
    ghost var acc := rs[0];
    ghost var slot: seq<int>, dist: seq<int>, starts: seq<int> := [], [], [];
    HoldsStart(verts[..], vht, tris[..]);

    var nverts := 0;
    var i, q := 0, 0;
    var pos := body;
    while i < ntris
      invariant 0 <= i <= m && pos == body + 50 * i
      invariant q == 3 * i && q < |rs| && acc == rs[q]
      invariant Holds(verts[..], vht[..], tris[..], nverts, q, acc, slot, dist, starts) && attrs[..i] == ws[..i]
    {
      if |file| < pos + 50 {
        return Err(ShortTriangle);
      }
      var ok;
      ok, nverts, slot, dist, starts := ReadTriangle(file, body, i, m, tris, attrs, verts, nverts, vht, q, cs, ws, rs, slot, dist, starts);
      if !ok {
        return Err(HashFull);
      }
      acc := rs[q + 3];
      i, q := i + 1, q + 3;
      pos := pos + 50;
    }
    assert attrs[..] == attrs[..i] && ws[..i] == ws;
    HoldsAll(verts[..], vht[..], tris[..], nverts, acc, slot, dist, starts);
    return Ok(nverts);
  }

  /** `loadstl`'s main loop over `ntris` records from `body` on, with the
   *  empty vertex table `vht`: the result and the buffers are what
   *  `DecodeTriangles` describes. */
  method ReadTriangles(file: seq<Byte>, body: nat, ntris: nat,
                       tris: array<int>, attrs: array<U16>, verts: array<U32>, vht: array<int>)
    returns (r: Result<nat, LoadError>)
    requires body <= |file| && tris != vht
    requires tris.Length == 3 * ntris && attrs.Length == ntris && verts.Length == 3 * ntris * 3
    requires vht.Length == 0 || (0x1_0000_0000 % vht.Length == 0 && vht.Length <= 0x8000_0000)
    requires forall s :: 0 <= s < vht.Length ==> vht[s] == 0
    modifies tris, attrs, verts, vht
    ensures match DecodeTriangles(file, body, vht.Length, ntris)
      case Err(e) => r == Err(e)
      case Ok((a, ws)) =>
        && r == Ok(|a.points|) && 3 * |a.points| <= verts.Length
        && verts[..3 * |a.points|] == Flatten(a.points) && tris[..] == a.tris && attrs[..] == ws
  {
    ghost var m := Available(file, body, ntris);
    ghost var cs := CornerList(file, body, m);
    ghost var ws := AttrList(file, body, m);
    ghost var rs := Run(Acc([], []), cs, vht.Length);
    forall j | 0 <= j < m
      ensures RecordAt(file, body, cs, ws, j)
    {
      RecordFields(file, body, j, m);
    }
    r := ReadRecords(file, body, ntris, tris, attrs, verts, vht, m, cs, ws, rs);
    DecodeRun(file, body, vht.Length, ntris);
  }

  // ---------------------------------------------------------------------
  // Buffer sizes: as written, and as allocated here
  // ---------------------------------------------------------------------

  /** Entries `loadstl` allocates for the triangle buffer: `ntris * 3` is a
   *  product of 32-bit unsigned numbers, so it wraps around 2^32. */
  function TrisAllocatedAsWritten(ntris: nat): (k: nat)
    requires ntris < 0x1_0000_0000
    ensures k <= 3 * ntris && (k == 3 * ntris <==> 3 * ntris < 0x1_0000_0000)
  {
    (ntris * 3) % 0x1_0000_0000
  }

  /** Words `loadstl` allocates for the vertex buffer: `3 * ntris * 3`,
   *  again a 32-bit product that wraps around 2^32. */
  function VertsAllocatedAsWritten(ntris: nat): (k: nat)
    requires ntris < 0x1_0000_0000
    ensures k <= 9 * ntris && (k == 9 * ntris <==> 9 * ntris < 0x1_0000_0000)
  {
    (3 * ntris * 3) % 0x1_0000_0000
  }

  /** Three corners numbered from scratch with a table of at least three
   *  slots: all three get a number, and three different corners make
   *  three vertices. */
  lemma ThreeCorners(ps: seq<Point>, cap: int)
    requires |ps| == 3 && 3 <= cap
    ensures var r := AddCorners(Acc([], []), ps, cap);
      && r.Ok? && |r.value.tris| == 3 && |r.value.points| <= 3
      && (ps[0] != ps[1] && ps[0] != ps[2] && ps[1] != ps[2] ==> |r.value.points| == 3)
  {
    AddCornersRoom(Acc([], []), ps, cap);
    AddCornersShape(Acc([], []), ps, cap);
    var a := AddCorners(Acc([], []), ps, cap).value;
    assert a.points[a.tris[0]] == ps[0] && a.points[a.tris[1]] == ps[1] && a.points[a.tris[2]] == ps[2];
  }

  /** As written, a header announcing 0x1C71C71D triangles gets a vertex
   *  buffer of 5 words, while a first record with three different corners
   *  stores 9; one announcing 0x55555556 triangles gets a triangle buffer
   *  of 2 entries, while every first record stores 3. */
  lemma FirstRecordOverflows(file: seq<Byte>, body: nat)
    requires body + 50 <= |file|
    ensures VertsAllocatedAsWritten(0x1C71_C71D) == 5 && TrisAllocatedAsWritten(0x5555_5556) == 2
    ensures var r := AddCorners(Acc([], []), CornerList(file, body, 1), TableSize(0x5555_5556));
      r.Ok? && |r.value.tris| == 3
    ensures var ps := CornerList(file, body, 1);
      var r := AddCorners(Acc([], []), ps, TableSize(0x1C71_C71D));
      ps[0] != ps[1] && ps[0] != ps[2] && ps[1] != ps[2] ==> r.Ok? && 3 * |r.value.points| == 9
  {
    var ps := CornerList(file, body, 1);
    ModUnique(3 * 0x1C71_C71D * 3, 0x1_0000_0000, 1, 5);
    ModUnique(0x5555_5556 * 3, 0x1_0000_0000, 1, 2);
    ModUnique(4 * 0x5555_5556, 0x1_0000_0000, 1, 0x5555_5558);
    TableRoom(0x1C71_C71D);
    ThreeCorners(ps, TableSize(0x1C71_C71D));
    assert TableSize(0x5555_5556) >= 0x5555_5558;
    ThreeCorners(ps, TableSize(0x5555_5556));
  }

  /** `loadstl` after a passing format check, the stream at `start`:
   *  read the header, allocate the triangle, attribute and vertex buffers
   *  and a vertex table of `nextpow2(4 * ntris)` empty slots, then run the
   *  main loop over the records. */
  method LoadFrom(file: seq<Byte>, start: nat) returns (res: Result<Mesh, LoadError>)
    requires start <= |file|
    ensures res == LoadAfterCheck(file, start)
  {
    if |file| < start + 84 {
      return Err(ShortHeader);
    }
    var comment := file[start..start + 80];
    var ntris: nat := Get32(file, start + 80);

    var tris := new int[3 * ntris];
    var attrs := new U16[ntris];
    var verts := new U32[3 * ntris * 3](_ => 0);
    var vhtcap := TableSlots(file, start + 80);
    var vht := new int[vhtcap](_ => 0);

    var r := ReadTriangles(file, start + 84, ntris, tris, attrs, verts, vht);
    if r.Err? {
      return Err(r.error);
    }
    var nverts := r.value;
    return Ok(Mesh(comment, verts[..3 * nverts], nverts, tris[..], attrs[..], ntris));
  }

  /** `loadstl` on the opened file `fp` (`None` when it could not be
   *  opened): check the format, then read from where the check left the
   *  stream. */
  method LoadStl(fp: Option<seq<Byte>>) returns (res: Result<Mesh, LoadError>)
    ensures res == Load(fp)
  {
    var format := CheckStlFormat(fp);
    if format == Invalid {
      return Err(InvalidFormat);
    }
    res := LoadFrom(fp.value, DataStart(fp.value, format));
  }
}
