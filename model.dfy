/** Index regeneration for Wavefront OBJ geometry: every (position, normal,
    texture) index triplet used by a primitive becomes one interleaved
    vertex, and each primitive's corners become indices into those
    vertices, a triplet seen before reusing its vertex. */
module Model {
  import opened Common

  /** An OBJ corner: position index, optional texture index, optional
      normal index, in the order the OBJ format writes them. */
  datatype VtnIndex = VtnIndex(pos: nat, tex: Option<nat>, nor: Option<nat>)

  /** An OBJ primitive and its corners. */
  datatype Primitive =
    | Point(a: VtnIndex)
    | Line(a: VtnIndex, b: VtnIndex)
    | Triangle(a: VtnIndex, b: VtnIndex, c: VtnIndex)

  /** An OBJ shape: the primitive it draws. */
  datatype Shape = Shape(primitive: Primitive)

  /** An OBJ geometry: its shapes. */
  datatype Geometry = Geometry(shapes: seq<Shape>)

  /** The triplet key of a corner, reordered to (position, normal, texture). */
  datatype Key = Key(pos: nat, nor: nat, tex: nat)

  datatype ModelError =
    | FileNotFound(path: string, reason: string)
    | ParseFailed(reason: string)
    | MultiObjects
    | UnsupportedVertex

  // ---------------------------------------------------------------------
  // Keys of corners and primitives
  // ---------------------------------------------------------------------

  /** The corner a key stands for. */
  function KeyCorner(k: Key): VtnIndex {
    VtnIndex(k.pos, Some(k.tex), Some(k.nor))
  }

  /** `vtnindex_to_key`: a corner with both a texture and a normal index
      becomes its key; any other corner is unsupported. */
  function VtnIndexToKey(i: VtnIndex): (r: Result<Key, ModelError>)
    ensures r.Ok? <==> i.tex.Some? && i.nor.Some?
    ensures r.Ok? ==> KeyCorner(r.value) == i
    ensures r.Err? ==> r.error == UnsupportedVertex
  {
    match i
    case VtnIndex(pi, Some(ti), Some(ni)) => Ok(Key(pi, ni, ti))
    case _ => Err(UnsupportedVertex)
  }

  /** The key of a corner is the only key standing for it. */
  lemma KeyRoundTrip(k: Key)
    ensures VtnIndexToKey(KeyCorner(k)) == Ok(k)
  {
  }

  /** The corners of a primitive, in order. */
  function Corners(p: Primitive): seq<VtnIndex> {
    match p
    case Point(a) => [a]
    case Line(a, b) => [a, b]
    case Triangle(a, b, c) => [a, b, c]
  }

  predicate Supported(i: VtnIndex) {
    i.tex.Some? && i.nor.Some?
  }

  /** `create_keys_from_primitive`: the keys of the corners, in corner order,
      or `UnsupportedVertex` when any corner lacks an index. */
  function CreateKeys(p: Primitive): (r: Result<seq<Key>, ModelError>)
    ensures r.Ok? <==> forall j :: 0 <= j < |Corners(p)| ==> Supported(Corners(p)[j])
    ensures r.Ok? ==> (|r.value| == |Corners(p)|
                       && forall j :: 0 <= j < |r.value| ==> KeyCorner(r.value[j]) == Corners(p)[j])
    ensures r.Err? ==> r.error == UnsupportedVertex
  {
    match p
    case Point(a) =>
      (match VtnIndexToKey(a)
       case Err(e) => assert !Supported(Corners(p)[0]); Err(e)
       case Ok(ka) => Ok([ka]))
    case Line(a, b) =>
      (match VtnIndexToKey(a)
       case Err(e) => assert !Supported(Corners(p)[0]); Err(e)
       case Ok(ka) =>
         match VtnIndexToKey(b)
         case Err(e) => assert !Supported(Corners(p)[1]); Err(e)
         case Ok(kb) => Ok([ka, kb]))
    case Triangle(a, b, c) =>
      match VtnIndexToKey(a)
      case Err(e) => assert !Supported(Corners(p)[0]); Err(e)
      case Ok(ka) =>
        match VtnIndexToKey(b)
        case Err(e) => assert !Supported(Corners(p)[1]); Err(e)
        case Ok(kb) =>
          match VtnIndexToKey(c)
          case Err(e) => assert !Supported(Corners(p)[2]); Err(e)
          case Ok(kc) => Ok([ka, kb, kc])
  }

  /** What the loop over primitives collects: the keys of the primitives
      up to the first one that fails, and whether one failed. */
  datatype Gathered = Gathered(keys: seq<Key>, failed: bool)

  /** The keys `convert_geometry` reaches when it walks `prims` in order,
      stopping at the first primitive whose keys cannot be created. */
  function Gather(prims: seq<Primitive>): (r: Gathered)
    ensures |r.keys| <= CornerCount(prims)
    ensures r.failed ==> prims != []
  {
    if prims == [] then Gathered([], false)
    else
      var g := Gather(prims[..|prims| - 1]);
      if g.failed then g
      else match CreateKeys(prims[|prims| - 1])
        case Err(_) => Gathered(g.keys, true)
        case Ok(ks) => Gathered(g.keys + ks, false)
  }

  /** Number of corners of all primitives. */
  function CornerCount(prims: seq<Primitive>): nat {
    if prims == [] then 0 else CornerCount(prims[..|prims| - 1]) + |Corners(prims[|prims| - 1])|
  }

  /** The corners of all primitives, in order. */
  function AllCorners(prims: seq<Primitive>): (r: seq<VtnIndex>)
    ensures |r| == CornerCount(prims)
  {
    if prims == [] then [] else AllCorners(prims[..|prims| - 1]) + Corners(prims[|prims| - 1])
  }

  /** Every primitive's keys can be created. */
  predicate AllCreatable(prims: seq<Primitive>) {
    forall p :: 0 <= p < |prims| ==> CreateKeys(prims[p]).Ok?
  }

  /** The walk fails exactly when some primitive has an unsupported corner;
      otherwise it yields one key per corner. */
  lemma {:induction false} GatherOutcome(prims: seq<Primitive>)
    ensures Gather(prims).failed <==> !AllCreatable(prims)
    ensures !Gather(prims).failed ==> |Gather(prims).keys| == CornerCount(prims)
    ensures !Gather(prims).failed ==>
              forall j :: 0 <= j < |Gather(prims).keys| ==> KeyCorner(Gather(prims).keys[j]) == AllCorners(prims)[j]
  {
    if prims != [] {
      var init, last := prims[..|prims| - 1], prims[|prims| - 1];
      GatherOutcome(init);
      assert AllCreatable(prims) <==> AllCreatable(init) && CreateKeys(last).Ok? by {
        assert forall p :: 0 <= p < |init| ==> init[p] == prims[p];
      }
      var g := Gather(init);
      if !g.failed && CreateKeys(last).Ok? {
        KeysOfCorners(g.keys, CreateKeys(last).value, AllCorners(init), Corners(last));
      }
    }
  }

  /** Keys standing for two runs of corners, joined, stand for the joined runs. */
  lemma KeysOfCorners(ks0: seq<Key>, ks1: seq<Key>, cs0: seq<VtnIndex>, cs1: seq<VtnIndex>)
    requires |ks0| == |cs0| && forall j :: 0 <= j < |ks0| ==> KeyCorner(ks0[j]) == cs0[j]
    requires |ks1| == |cs1| && forall j :: 0 <= j < |ks1| ==> KeyCorner(ks1[j]) == cs1[j]
    ensures forall j :: 0 <= j < |ks0 + ks1| ==> KeyCorner((ks0 + ks1)[j]) == (cs0 + cs1)[j]
  {
    forall j | 0 <= j < |ks0 + ks1|
      ensures KeyCorner((ks0 + ks1)[j]) == (cs0 + cs1)[j]
    {
      if j >= |ks0| {
        assert (ks0 + ks1)[j] == ks1[j - |ks0|];
      }
    }
  }

  /** Walking a prefix reaches a prefix of the keys, and once a prefix
      fails the whole walk has failed with the same keys. */
  lemma {:induction false} GatherPrefix(prims: seq<Primitive>, n: nat)
    requires n <= |prims|
    ensures Gather(prims[..n]).keys <= Gather(prims).keys
    ensures Gather(prims[..n]).failed ==> Gather(prims) == Gather(prims[..n])
    decreases |prims|
  {
    if n < |prims| {
      var init := prims[..|prims| - 1];
      assert init[..n] == prims[..n];
      GatherPrefix(init, n);
    } else {
      assert prims[..n] == prims;
    }
  }

  // ---------------------------------------------------------------------
  // De-duplication: the reference definition
  // ---------------------------------------------------------------------

  predicate NoDuplicates(s: seq<Key>) {
    forall i, j :: 0 <= i < j < |s| ==> s[i] != s[j]
  }

  /** The distinct elements of `s`, in order of first occurrence. */
  function Distinct(s: seq<Key>): (d: seq<Key>)
    ensures forall x :: x in d <==> x in s
    ensures NoDuplicates(d)
  {
    if s == [] then []
    else
      var d0 := Distinct(s[..|s| - 1]);
      if s[|s| - 1] in d0 then d0 else d0 + [s[|s| - 1]]
  }

  /** Position of the first occurrence of `x` in `s`. */
  function FirstIndex(s: seq<Key>, x: Key): (i: nat)
    requires x in s
    ensures i < |s| && s[i] == x
    ensures forall j :: 0 <= j < i ==> s[j] != x
  {
    if s[0] == x then 0 else 1 + FirstIndex(s[1..], x)
  }

  /** The first index is the only index with that property. */
  lemma FirstIndexUnique(s: seq<Key>, x: Key, i: nat)
    requires i < |s| && s[i] == x
    requires forall j :: 0 <= j < i ==> s[j] != x
    ensures FirstIndex(s, x) == i
  {
  }

  /** One more element in the input adds at most that element to the
      distinct elements. */
  lemma DistinctSnoc(s: seq<Key>, x: Key)
    ensures Distinct(s + [x]) == if x in s then Distinct(s) else Distinct(s) + [x]
  {
    assert (s + [x])[..|s + [x]| - 1] == s;
  }

  /** Appending keeps the first index of an element already present. */
  lemma FirstIndexSnoc(d: seq<Key>, x: Key, y: Key)
    requires y in d
    ensures FirstIndex(d + [x], y) == FirstIndex(d, y)
  {
    FirstIndexUnique(d + [x], y, FirstIndex(d, y));
  }

  /** A new element goes at the end of the distinct elements. */
  lemma FirstIndexFresh(d: seq<Key>, x: Key)
    requires x !in d
    ensures FirstIndex(d + [x], x) == |d|
  {
    FirstIndexUnique(d + [x], x, |d|);
  }

  /** The distinct elements of a prefix are a prefix of the distinct
      elements. */
  lemma {:induction false} DistinctPrefix(s: seq<Key>, n: nat)
    requires n <= |s|
    ensures Distinct(s[..n]) <= Distinct(s)
    decreases |s|
  {
    if n < |s| {
      var init := s[..|s| - 1];
      assert init[..n] == s[..n];
      DistinctPrefix(init, n);
      assert s == init + [s[|s| - 1]];
      DistinctSnoc(init, s[|s| - 1]);
    } else {
      assert s[..n] == s;
    }
  }

  /** A sequence without duplicates has as many elements as its set. */
  lemma {:induction false} NoDuplicatesCard(s: seq<Key>)
    requires NoDuplicates(s)
    ensures |set x | x in s| == |s|
  {
    if s != [] {
      var init := s[..|s| - 1];
      NoDuplicatesCard(init);
      var last := s[|s| - 1];
      assert (set x | x in s) == (set x | x in init) + {last} by {
        assert s == init + [last];
      }
      assert last !in init;
    }
  }

  /** The vertex `interleave_vertex` builds for a key. */
  function InterleaveKey<P, N, T, V>(k: Key, positions: seq<P>, normals: seq<N>, tvertices: seq<T>,
                                     interleave: (P, N, T) -> V): V
    requires InBounds(k, |positions|, |normals|, |tvertices|)
  {
    interleave(positions[k.pos], normals[k.nor], tvertices[k.tex])
  }

  predicate InBounds(k: Key, np: nat, nn: nat, nt: nat) {
    k.pos < np && k.nor < nn && k.tex < nt
  }

  predicate AllInBounds(keys: seq<Key>, np: nat, nn: nat, nt: nat) {
    forall i :: 0 <= i < |keys| ==> InBounds(keys[i], np, nn, nt)
  }

  /** The regenerated vertices: one per distinct key, in order of first
      use. */
  function RegenVertices<P, N, T, V>(keys: seq<Key>, positions: seq<P>, normals: seq<N>, tvertices: seq<T>,
                                     interleave: (P, N, T) -> V): (vs: seq<V>)
    requires AllInBounds(keys, |positions|, |normals|, |tvertices|)
    ensures |vs| == |Distinct(keys)|
  {
    var d := Distinct(keys);
    assert forall j :: 0 <= j < |d| ==> d[j] in keys;
    seq(|d|, j requires 0 <= j < |d| => InterleaveKey(d[j], positions, normals, tvertices, interleave))
  }

  /** The regenerated indices: for every key, the position of its first use
      among the distinct keys, as the `u32` that `as u32` makes of it. */
  function RegenIndices(keys: seq<Key>): (ix: seq<u32>)
    ensures |ix| == |keys|
  {
    var d := Distinct(keys);
    seq(|keys|, i requires 0 <= i < |keys| => FirstIndex(d, keys[i]) % U32_LIMIT)
  }

  /** `vertices.len()` equals the number of distinct keys. */
  lemma VertexCount(keys: seq<Key>)
    ensures |Distinct(keys)| == |set k | k in keys|
  {
    NoDuplicatesCard(Distinct(keys));
    assert (set k | k in Distinct(keys)) == (set k | k in keys);
  }

  /** While there are at most 2^32 vertices, every index is in range and
      names the vertex built from its own key. */
  lemma IndicesResolve<P, N, T, V>(keys: seq<Key>, positions: seq<P>, normals: seq<N>, tvertices: seq<T>,
                                   interleave: (P, N, T) -> V, i: nat)
    requires AllInBounds(keys, |positions|, |normals|, |tvertices|)
    requires |Distinct(keys)| <= U32_LIMIT && i < |keys|
    ensures RegenIndices(keys)[i] < |RegenVertices(keys, positions, normals, tvertices, interleave)|
    ensures RegenVertices(keys, positions, normals, tvertices, interleave)[RegenIndices(keys)[i]]
            == InterleaveKey(keys[i], positions, normals, tvertices, interleave)
  {
    var d := Distinct(keys);
    var f := FirstIndex(d, keys[i]);
    assert f % U32_LIMIT == f;
    assert RegenIndices(keys)[i] == f;
    assert d[f] == keys[i];
  }

  /** A key seen before reuses the index of its first use; a key seen for
      the first time gets the number of vertices built before it. */
  lemma IndexReuse(keys: seq<Key>, i: nat)
    requires i < |keys|
    ensures keys[i] in keys[..i] ==>
              |Distinct(keys[..i + 1])| == |Distinct(keys[..i])|
              && FirstIndex(keys, keys[i]) < i
              && RegenIndices(keys)[i] == RegenIndices(keys)[FirstIndex(keys, keys[i])]
    ensures keys[i] !in keys[..i] ==>
              |Distinct(keys[..i + 1])| == |Distinct(keys[..i])| + 1
              && RegenIndices(keys)[i] == |Distinct(keys[..i])| % U32_LIMIT
  {
    assert keys[..i + 1] == keys[..i] + [keys[i]];
    DistinctSnoc(keys[..i], keys[i]);
    if keys[i] in keys[..i] {
      var j :| 0 <= j < i && keys[..i][j] == keys[i];
      assert keys[j] == keys[i];
      var f := FirstIndex(keys, keys[i]);
      assert f <= j;
    } else {
      DistinctPrefix(keys, i + 1);
      var d, m := Distinct(keys), |Distinct(keys[..i])|;
      assert d[..m + 1] == Distinct(keys[..i + 1]);
      assert d[m] == keys[i];
      assert d[..m] == Distinct(keys[..i]);
      assert forall j :: 0 <= j < m ==> d[j] == d[..m][j];
      FirstIndexUnique(d, keys[i], m);
    }
  }

  // ---------------------------------------------------------------------
  // convert_geometry
  // ---------------------------------------------------------------------

  function Primitives(geo: Geometry): (ps: seq<Primitive>)
    ensures |ps| == |geo.shapes|
  {
    seq(|geo.shapes|, i requires 0 <= i < |geo.shapes| => geo.shapes[i].primitive)
  }

  /** `convert_geometry`: walk the primitives, turn their corners into keys,
      and build the interleaved vertices and the index buffer, reusing the
      index of a key already met through `index_map`. The source indexes
      the attribute arrays directly, so the keys it reaches must be in
      bounds. */
  method ConvertGeometry<P, N, T, V>(geo: Geometry, positions: seq<P>, normals: seq<N>, tvertices: seq<T>,
                                     interleave: (P, N, T) -> V)
    returns (r: Result<(seq<V>, seq<u32>), ModelError>)
    requires AllInBounds(Gather(Primitives(geo)).keys, |positions|, |normals|, |tvertices|)
    ensures r.Err? <==> Gather(Primitives(geo)).failed
    ensures r.Err? ==> r.error == UnsupportedVertex
    ensures r.Ok? ==> var keys := Gather(Primitives(geo)).keys;
                      r.value.0 == RegenVertices(keys, positions, normals, tvertices, interleave)
                      && r.value.1 == RegenIndices(keys)
  {
    var prims := Primitives(geo);
    var vertices: seq<V> := [];
    var indices: seq<u32> := [];
    var indexMap: map<Key, u32> := map[];
    ghost var seen: seq<Key> := [];

    for p := 0 to |prims|
      invariant !Gather(prims[..p]).failed && seen == Gather(prims[..p]).keys
      invariant AllInBounds(seen, |positions|, |normals|, |tvertices|)
      invariant BuffersMatch(seen, vertices, indices, indexMap, positions, normals, tvertices, interleave)
    {
      GatherStep(prims, p);
      match CreateKeys(prims[p]) {
        case Err(e) =>
          return Err(e);
        case Ok(keys) =>
          PrefixInBounds(seen + keys, Gather(prims).keys, |positions|, |normals|, |tvertices|);
          vertices, indices, indexMap := AddKeys(seen, keys, vertices, indices, indexMap,
                                                 positions, normals, tvertices, interleave);
          seen := seen + keys;
      }
    }
    assert prims[..|prims|] == prims;
    r := Ok((vertices, indices));
  }

  /** The inner loop of `convert_geometry` over the keys of one primitive:
      a key already in `index_map` adds its index, a new key adds its
      vertex, the next index and the map entry. */
  method AddKeys<P, N, T, V>(ghost seen: seq<Key>, keys: seq<Key>, vertices0: seq<V>, indices0: seq<u32>,
                             indexMap0: map<Key, u32>, positions: seq<P>, normals: seq<N>, tvertices: seq<T>,
                             interleave: (P, N, T) -> V)
    returns (vertices: seq<V>, indices: seq<u32>, indexMap: map<Key, u32>)
    requires AllInBounds(seen, |positions|, |normals|, |tvertices|)
    requires AllInBounds(seen + keys, |positions|, |normals|, |tvertices|)
    requires BuffersMatch(seen, vertices0, indices0, indexMap0, positions, normals, tvertices, interleave)
    ensures BuffersMatch(seen + keys, vertices, indices, indexMap, positions, normals, tvertices, interleave)
  {
    vertices, indices, indexMap := vertices0, indices0, indexMap0;
    ghost var full := seen + keys;
    ghost var done := seen;
    for q := 0 to |keys|
      invariant done <= full && |done| == |seen| + q
      invariant AllInBounds(done, |positions|, |normals|, |tvertices|)
      invariant BuffersMatch(done, vertices, indices, indexMap, positions, normals, tvertices, interleave)
    {
      var key := keys[q];
      assert key == full[|done|];
      PrefixExtend(done, full);
      PrefixInBounds(done + [key], full, |positions|, |normals|, |tvertices|);
      if key in indexMap {
        BuffersMatchAgain(done, key, vertices, indices, indexMap, positions, normals, tvertices, interleave);
        indices := indices + [indexMap[key]];
      } else {
        var vertex := interleave(positions[key.pos], normals[key.nor], tvertices[key.tex]);
        var index: u32 := |vertices| % U32_LIMIT;
        BuffersMatchFresh(done, key, vertices, indices, indexMap, positions, normals, tvertices, interleave);
        vertices := vertices + [vertex];
        indices := indices + [index];
        indexMap := indexMap[key := index];
      }
      done := done + [key];
    }
    PrefixFull(done, full);
  }

  /** One step of the walk over primitives: the prefix up to `p + 1` is
      the prefix up to `p` followed by primitive `p`. */
  lemma GatherStep(prims: seq<Primitive>, p: nat)
    requires p < |prims| && !Gather(prims[..p]).failed
    ensures CreateKeys(prims[p]).Err? ==> Gather(prims).failed
    ensures CreateKeys(prims[p]).Ok? ==>
              Gather(prims[..p + 1]) == Gathered(Gather(prims[..p]).keys + CreateKeys(prims[p]).value, false)
              && Gather(prims[..p]).keys + CreateKeys(prims[p]).value <= Gather(prims).keys
  {
    assert prims[..p + 1][..p] == prims[..p];
    GatherPrefix(prims, p + 1);
  }

  /** A proper prefix extends by the next element to a prefix. */
  lemma PrefixExtend(a: seq<Key>, b: seq<Key>)
    requires a <= b && |a| < |b|
    ensures a + [b[|a|]] <= b
  {
    assert b[..|a| + 1] == b[..|a|] + [b[|a|]];
  }

  /** A prefix as long as the whole is the whole. */
  lemma PrefixFull(a: seq<Key>, b: seq<Key>)
    requires a <= b && |a| == |b|
    ensures a == b
  {
  }

  /** A prefix of keys in bounds is in bounds. */
  lemma PrefixInBounds(a: seq<Key>, b: seq<Key>, np: nat, nn: nat, nt: nat)
    requires a <= b && AllInBounds(b, np, nn, nt)
    ensures AllInBounds(a, np, nn, nt)
  {
    assert forall i :: 0 <= i < |a| ==> a[i] == b[i];
  }

  /** What the loop of `ConvertGeometry` keeps true of the keys `seen` so
      far: the buffers are the reference ones and `index_map` holds every
      seen key with its index. */
  ghost predicate BuffersMatch<P, N, T, V>(seen: seq<Key>, vertices: seq<V>, indices: seq<u32>, indexMap: map<Key, u32>,
                                        positions: seq<P>, normals: seq<N>, tvertices: seq<T>,
                                        interleave: (P, N, T) -> V)
    requires AllInBounds(seen, |positions|, |normals|, |tvertices|)
  {
    && vertices == RegenVertices(seen, positions, normals, tvertices, interleave)
    && indices == RegenIndices(seen)
    && (forall k :: k in indexMap <==> k in seen)
    && (forall k :: k in indexMap ==> indexMap[k] == FirstIndex(Distinct(seen), k) % U32_LIMIT)
  }

  /** One more key leaves the indices of the earlier keys as they were
      and adds the index of the new key. */
  lemma RegenIndicesSnoc(seen: seq<Key>, key: Key)
    ensures RegenIndices(seen + [key]) == RegenIndices(seen) + [FirstIndex(Distinct(seen + [key]), key) % U32_LIMIT]
  {
    var s, d := seen + [key], Distinct(seen);
    DistinctSnoc(seen, key);
    forall j | 0 <= j < |seen|
      ensures FirstIndex(Distinct(s), s[j]) == FirstIndex(d, seen[j])
    {
      assert s[j] == seen[j];
      if key !in seen { FirstIndexSnoc(d, key, seen[j]); }
    }
  }

  /** One more key adds a vertex exactly when the key is new. */
  lemma RegenVerticesSnoc<P, N, T, V>(seen: seq<Key>, key: Key, positions: seq<P>, normals: seq<N>,
                                      tvertices: seq<T>, interleave: (P, N, T) -> V)
    requires AllInBounds(seen, |positions|, |normals|, |tvertices|)
    requires InBounds(key, |positions|, |normals|, |tvertices|)
    requires AllInBounds(seen + [key], |positions|, |normals|, |tvertices|)
    ensures RegenVertices(seen + [key], positions, normals, tvertices, interleave)
            == if key in seen then RegenVertices(seen, positions, normals, tvertices, interleave)
               else RegenVertices(seen, positions, normals, tvertices, interleave)
                    + [InterleaveKey(key, positions, normals, tvertices, interleave)]
  {
    DistinctSnoc(seen, key);
  }

  /** A key already in `index_map` adds its stored index and nothing else. */
  lemma BuffersMatchAgain<P, N, T, V>(seen: seq<Key>, key: Key, vertices: seq<V>, indices: seq<u32>,
                                   indexMap: map<Key, u32>, positions: seq<P>, normals: seq<N>,
                                   tvertices: seq<T>, interleave: (P, N, T) -> V)
    requires AllInBounds(seen + [key], |positions|, |normals|, |tvertices|)
    requires AllInBounds(seen, |positions|, |normals|, |tvertices|)
    requires BuffersMatch(seen, vertices, indices, indexMap, positions, normals, tvertices, interleave)
    requires InBounds(key, |positions|, |normals|, |tvertices|) && key in indexMap
    ensures BuffersMatch(seen + [key], vertices, indices + [indexMap[key]], indexMap,
                      positions, normals, tvertices, interleave)
  {
    DistinctSnoc(seen, key);
    RegenIndicesSnoc(seen, key);
    RegenVerticesSnoc(seen, key, positions, normals, tvertices, interleave);
  }

  /** A key not yet in `index_map` adds the vertex it names, the next index
      and the map entry for it. */
  lemma BuffersMatchFresh<P, N, T, V>(seen: seq<Key>, key: Key, vertices: seq<V>, indices: seq<u32>,
                                   indexMap: map<Key, u32>, positions: seq<P>, normals: seq<N>,
                                   tvertices: seq<T>, interleave: (P, N, T) -> V)
    requires AllInBounds(seen + [key], |positions|, |normals|, |tvertices|)
    requires AllInBounds(seen, |positions|, |normals|, |tvertices|)
    requires BuffersMatch(seen, vertices, indices, indexMap, positions, normals, tvertices, interleave)
    requires InBounds(key, |positions|, |normals|, |tvertices|) && key !in indexMap
    ensures var index := |vertices| % U32_LIMIT;
            BuffersMatch(seen + [key], vertices + [interleave(positions[key.pos], normals[key.nor], tvertices[key.tex])],
                      indices + [index], indexMap[key := index], positions, normals, tvertices, interleave)
  {
    var index := |vertices| % U32_LIMIT;
    assert key !in seen;
    FreshBuffers(seen, key, positions, normals, tvertices, interleave);
    FreshMap(seen, key, indexMap, index);
  }

  /** The buffers after a new key: its vertex and the index of that vertex
      are appended. */
  lemma FreshBuffers<P, N, T, V>(seen: seq<Key>, key: Key, positions: seq<P>, normals: seq<N>,
                                 tvertices: seq<T>, interleave: (P, N, T) -> V)
    requires AllInBounds(seen + [key], |positions|, |normals|, |tvertices|)
    requires AllInBounds(seen, |positions|, |normals|, |tvertices|)
    requires InBounds(key, |positions|, |normals|, |tvertices|) && key !in seen
    ensures RegenVertices(seen + [key], positions, normals, tvertices, interleave)
            == RegenVertices(seen, positions, normals, tvertices, interleave)
               + [interleave(positions[key.pos], normals[key.nor], tvertices[key.tex])]
    ensures RegenIndices(seen + [key])
            == RegenIndices(seen) + [|RegenVertices(seen, positions, normals, tvertices, interleave)| % U32_LIMIT]
  {
    var d := Distinct(seen);
    DistinctSnoc(seen, key);
    FirstIndexFresh(d, key);
    RegenIndicesSnoc(seen, key);
    RegenVerticesSnoc(seen, key, positions, normals, tvertices, interleave);
  }

  /** The map after a new key: the key is added with the next index. */
  lemma FreshMap(seen: seq<Key>, key: Key, indexMap: map<Key, u32>, index: u32)
    requires forall k :: k in indexMap <==> k in seen
    requires forall k :: k in indexMap ==> indexMap[k] == FirstIndex(Distinct(seen), k) % U32_LIMIT
    requires key !in seen && index == |Distinct(seen)| % U32_LIMIT
    ensures forall k :: k in indexMap[key := index] <==> k in seen + [key]
    ensures forall k :: k in indexMap[key := index] ==>
              indexMap[key := index][k] == FirstIndex(Distinct(seen + [key]), k) % U32_LIMIT
  {
    var d := Distinct(seen);
    DistinctSnoc(seen, key);
    FirstIndexFresh(d, key);
    forall k | k in seen
      ensures FirstIndex(Distinct(seen + [key]), k) == FirstIndex(d, k)
    {
      FirstIndexSnoc(d, key, k);
    }
  }
}
