/**
  The deduplicating evaluation graph (src/graph.rs): a cache from node hashes to node
  ids, the vector of compiled nodes, and the vector of data slots. Device memory is
  abstract: a slot is a value of type `D`, and every allocation or upload is a parameter
  holding its outcome.
 */
module Graph {

  /** `error::Error`. */
  datatype Error = CudaError | Other(msg: string)

  datatype Result<+T> = Ok(value: T) | Err(error: Error)

  /** Why a call panics instead of returning. */
  datatype Panic = IndexOutOfBounds | UnwrapOnError(error: Error) | AssertionFailed

  datatype Run<+T> = Returns(value: T) | Panics(reason: Panic)

  /** `NodeHash`: the type tag of a node and the data slots it reads, in order. */
  datatype NodeHash = NodeHash(typeId: nat, dataId: seq<nat>)

  /** The slots of a list of hashes, concatenated in order. */
  function Flatten(hs: seq<NodeHash>): seq<nat>
    decreases |hs|
  {
    if |hs| == 0 then [] else hs[0].dataId + Flatten(hs[1..])
  }

  /** `NodeHash::collect`: the root's type tag with the sub-nodes' slots concatenated. */
  function Collect(rootType: nat, sub: seq<NodeHash>): (h: NodeHash)
    ensures h.typeId == rootType
    ensures |sub| == 0 ==> h.dataId == []
    ensures |sub| > 0 ==> sub[0].dataId <= h.dataId
  {
    NodeHash(rootType, Flatten(sub))
  }

  /** Over sub-nodes that each read one slot, the collected hash reads exactly those slots, in order. */
  lemma {:induction false} CollectSingleSlots(rootType: nat, sub: seq<NodeHash>)
    requires forall i :: 0 <= i < |sub| ==> |sub[i].dataId| == 1
    ensures |Collect(rootType, sub).dataId| == |sub|
    ensures forall i :: 0 <= i < |sub| ==> Collect(rootType, sub).dataId[i] == sub[i].dataId[0]
    decreases |sub|
  {
    if |sub| > 0 {
      CollectSingleSlots(rootType, sub[1..]);
      assert Flatten(sub) == sub[0].dataId + Flatten(sub[1..]);
    }
  }

  /** Collecting over two lists in a row concatenates their slot lists. */
  lemma {:induction false} CollectConcat(rootType: nat, a: seq<NodeHash>, b: seq<NodeHash>)
    ensures Collect(rootType, a + b).dataId == Collect(rootType, a).dataId + Collect(rootType, b).dataId
    decreases |a|
  {
    if |a| > 0 {
      assert (a + b)[1..] == a[1..] + b;
      CollectConcat(rootType, a[1..], b);
    } else {
      assert a + b == b;
    }
  }

  datatype CompiledNode<+N> = CompiledNode(inner: N, dataId: nat)

  datatype Graph<+N, +D> = Graph(cache: map<NodeHash, nat>, nodes: seq<CompiledNode<N>>, data: seq<D>)

  /** `NodeIndex`: the position of a compiled node and the hash it was found or stored under. */
  datatype NodeIndex = NodeIndex(id: nat, hash: NodeHash)

  /**
    The graph's invariant: one cache entry per node, the cached ids are distinct node
    positions, and every node owns its own data slot, allocated in node order.
   */
  predicate Valid<N, D>(g: Graph<N, D>)
  {
    CacheMatchesNodes(g.cache, |g.nodes|) && SlotsIncreasing(g.nodes, |g.data|)
  }

  /** One entry per node, each a distinct node position. */
  predicate CacheMatchesNodes(cache: map<NodeHash, nat>, count: nat)
  {
    && |cache| == count
    && (forall h :: h in cache ==> cache[h] < count)
    && (forall h1, h2 :: h1 in cache && h2 in cache && cache[h1] == cache[h2] ==> h1 == h2)
  }

  /** Every node's slot exists, and slots were handed out in node order. */
  predicate SlotsIncreasing<N>(nodes: seq<CompiledNode<N>>, slots: nat)
  {
    && (forall i :: 0 <= i < |nodes| ==> nodes[i].dataId < slots)
    && (forall i, j :: 0 <= i < j < |nodes| ==> nodes[i].dataId < nodes[j].dataId)
  }

  /** `Graph::new`: nothing cached, no nodes, no data. */
  function New<N, D>(): (g: Graph<N, D>)
    ensures g.cache == map[] && g.nodes == [] && g.data == []
    ensures Valid(g)
  {
    Graph(map[], [], [])
  }

  /** The position of the first hash of the list that is cached, or the list's length. */
  function FirstCached(hashes: seq<NodeHash>, cache: map<NodeHash, nat>): (i: nat)
    ensures i <= |hashes|
    ensures i < |hashes| ==> hashes[i] in cache
    ensures forall j :: 0 <= j < i ==> hashes[j] !in cache
    decreases |hashes|
  {
    if |hashes| == 0 then 0
    else if hashes[0] in cache then 0
    else 1 + FirstCached(hashes[1..], cache)
  }

  /**
    `Graph::insert`. The first hash of the list that is already cached selects an existing
    node. Otherwise the node is stored under `hashes[0]`: a data slot is allocated
    (`alloc`, unwrapped), the node is appended with that slot and cached under the new id.
    `hashes[0]` is evaluated before the lookup result is used, so an empty list panics.
   */
  function Insert<N, D>(g: Graph<N, D>, node: N, hashes: seq<NodeHash>, alloc: Result<D>)
    : (r: Run<(Graph<N, D>, NodeIndex)>)
    ensures |hashes| == 0 ==> r == Panics(IndexOutOfBounds)
    ensures forall j :: 0 <= j < |hashes| && hashes[j] in g.cache
                        && (forall i :: 0 <= i < j ==> hashes[i] !in g.cache) ==>
              r == Returns((g, NodeIndex(g.cache[hashes[j]], hashes[j])))
    ensures |hashes| > 0 && (forall j :: 0 <= j < |hashes| ==> hashes[j] !in g.cache) ==>
              match alloc
              case Err(e) => r == Panics(UnwrapOnError(e))
              case Ok(slot) =>
                r.Returns?
                && r.value.0.nodes == g.nodes + [CompiledNode(node, |g.data|)]
                && r.value.0.data == g.data + [slot]
                && r.value.0.cache == g.cache[hashes[0] := |g.nodes|]
                && r.value.1 == NodeIndex(|g.nodes|, hashes[0])
  {
    if |hashes| == 0 then Panics(IndexOutOfBounds)
    else
      var i := FirstCached(hashes, g.cache);
      var hash := if i < |hashes| then hashes[i] else hashes[0];
      if hash in g.cache then Returns((g, NodeIndex(g.cache[hash], hash)))
      else
        match alloc
        case Err(e) => Panics(UnwrapOnError(e))
        case Ok(slot) =>
          var id := |g.nodes|;
          Returns((Graph(g.cache[hash := id], g.nodes + [CompiledNode(node, |g.data|)], g.data + [slot]),
                   NodeIndex(id, hash)))
  }

  /**
    Insertion keeps the graph valid, returns an index cached under its own hash, adds at
    most one node, and leaves the existing nodes and slots where they were.
   */
  lemma InsertKeepsValid<N, D>(g: Graph<N, D>, node: N, hashes: seq<NodeHash>, alloc: Result<D>)
    requires Valid(g) && Insert(g, node, hashes, alloc).Returns?
    ensures var (g', idx) := Insert(g, node, hashes, alloc).value;
            && Valid(g')
            && idx.hash in g'.cache && g'.cache[idx.hash] == idx.id
            && idx.id < |g'.nodes|
            && |g.nodes| <= |g'.nodes| <= |g.nodes| + 1
            && g'.nodes[..|g.nodes|] == g.nodes
            && g'.data[..|g.data|] == g.data
  {
    var i := FirstCached(hashes, g.cache);
    if i == |hashes| {
      AppendKeepsValid(g, hashes[0], node, alloc.value);
    } else {
      assert g.nodes[..|g.nodes|] == g.nodes && g.data[..|g.data|] == g.data;
    }
  }

  /** Appending a node under an uncached hash, with a fresh slot, keeps the graph valid. */
  lemma AppendKeepsValid<N, D>(g: Graph<N, D>, hash: NodeHash, node: N, slot: D)
    requires Valid(g) && hash !in g.cache
    ensures var g' := Graph(g.cache[hash := |g.nodes|], g.nodes + [CompiledNode(node, |g.data|)], g.data + [slot]);
            Valid(g') && g'.nodes[..|g.nodes|] == g.nodes && g'.data[..|g.data|] == g.data
  {
    CacheExtends(g.cache, |g.nodes|, hash);
    SlotsExtend(g.nodes, |g.data|, node);
    assert (g.nodes + [CompiledNode(node, |g.data|)])[..|g.nodes|] == g.nodes;
    assert (g.data + [slot])[..|g.data|] == g.data;
  }

  lemma CacheExtends(cache: map<NodeHash, nat>, count: nat, hash: NodeHash)
    requires CacheMatchesNodes(cache, count) && hash !in cache
    ensures CacheMatchesNodes(cache[hash := count], count + 1)
  {
    assert cache[hash := count].Keys == cache.Keys + {hash};
  }

  lemma SlotsExtend<N>(nodes: seq<CompiledNode<N>>, slots: nat, node: N)
    requires SlotsIncreasing(nodes, slots)
    ensures SlotsIncreasing(nodes + [CompiledNode(node, slots)], slots + 1)
  {
    var nodes' := nodes + [CompiledNode(node, slots)];
    assert forall i :: 0 <= i < |nodes| ==> nodes'[i] == nodes[i];
  }

  /** `Graph::data`: the data slot of an indexed node. */
  function Data<N, D>(g: Graph<N, D>, idx: NodeIndex): (r: Run<D>)
    ensures Valid(g) && idx.id < |g.nodes| ==> r == Returns(g.data[g.nodes[idx.id].dataId])
    ensures idx.id >= |g.nodes| ==> r == Panics(IndexOutOfBounds)
  {
    if idx.id < |g.nodes| && g.nodes[idx.id].dataId < |g.data| then
      Returns(g.data[g.nodes[idx.id].dataId])
    else Panics(IndexOutOfBounds)
  }

  /** A node inserted anew reads back the slot allocated for it; a deduplicated one its existing slot. */
  lemma InsertedNodeData<N, D>(g: Graph<N, D>, node: N, hashes: seq<NodeHash>, alloc: Result<D>)
    requires Valid(g) && Insert(g, node, hashes, alloc).Returns?
    ensures var (g', idx) := Insert(g, node, hashes, alloc).value;
            Data(g', idx).Returns?
            && (idx.id == |g.nodes| ==> alloc.Ok? && Data(g', idx) == Returns(alloc.value))
            && (idx.id < |g.nodes| ==> Data(g', idx) == Data(g, idx))
  {
  }

  /** `Scalar(slot, symbol)`: a node pointing at a scalar's data slot. */
  datatype ScalarRef = ScalarRef(slot: nat, symbol: string)

  datatype MatrixMeta = MatrixMeta(trans: bool, leadingDim: nat)

  /** `Matrix<R, C>(slot, meta)`, with the const generics `R` and `C` as fields. */
  datatype MatrixRef = MatrixRef(rows: nat, cols: nat, slot: nat, meta: MatrixMeta)

  /** The nodes compiled into a graph here. */
  datatype Payload = ScalarNode(s: ScalarRef) | MatrixNode(m: MatrixRef)

  /**
    `Graph::scalar`: the value is uploaded (`upload`) into a new data slot, whose position
    is returned; on an upload error the graph is unchanged and the error returned.
   */
  function NewScalar<N, D>(g: Graph<N, D>, symbol: string, upload: Result<D>)
    : (r: (Graph<N, D>, Result<ScalarRef>))
    ensures upload.Err? ==> r == (g, Err(upload.error))
    ensures upload.Ok? ==>
              && r.0 == Graph(g.cache, g.nodes, g.data + [upload.value])
              && r.1 == Ok(ScalarRef(|g.data|, symbol))
    ensures Valid(g) ==> Valid(r.0)
  {
    match upload
    case Err(e) => (g, Err(e))
    case Ok(slot) => (g.(data := g.data + [slot]), Ok(ScalarRef(|g.data|, symbol)))
  }

  /**
    `Graph::matrix::<R, C>`: asserts `R * C == value.len()`, then uploads like `scalar`. The
    returned matrix is untransposed with leading dimension 0.
   */
  function NewMatrix<T, N, D>(g: Graph<N, D>, rows: nat, cols: nat, value: seq<T>, upload: Result<D>)
    : (r: Run<(Graph<N, D>, Result<MatrixRef>)>)
    ensures rows * cols != |value| <==> r == Panics(AssertionFailed)
    ensures rows * cols == |value| && upload.Err? ==> r == Returns((g, Err(upload.error)))
    ensures rows * cols == |value| && upload.Ok? ==>
              r == Returns((Graph(g.cache, g.nodes, g.data + [upload.value]),
                            Ok(MatrixRef(rows, cols, |g.data|, MatrixMeta(false, 0)))))
    ensures Valid(g) && r.Returns? ==> Valid(r.value.0)
  {
    if rows * cols != |value| then Panics(AssertionFailed)
    else
      match upload
      case Err(e) => Returns((g, Err(e)))
      case Ok(slot) =>
        Returns((g.(data := g.data + [slot]), Ok(MatrixRef(rows, cols, |g.data|, MatrixMeta(false, 0)))))
  }

  /** `NodeIndex::as_scalar`: a scalar pointing at the indexed node's slot, with an empty symbol. */
  function AsScalar<N, D>(g: Graph<N, D>, idx: NodeIndex): (r: Run<ScalarRef>)
    ensures idx.id < |g.nodes| <==> r.Returns?
    ensures r.Returns? ==> r.value == ScalarRef(g.nodes[idx.id].dataId, "")
  {
    if idx.id < |g.nodes| then Returns(ScalarRef(g.nodes[idx.id].dataId, "")) else Panics(IndexOutOfBounds)
  }

  /** `NodeIndex::as_matrix::<R, C>`: untransposed, leading dimension `R`. */
  function AsMatrix<N, D>(g: Graph<N, D>, idx: NodeIndex, rows: nat, cols: nat): (r: Run<MatrixRef>)
    ensures idx.id < |g.nodes| <==> r.Returns?
    ensures r.Returns? ==> r.value == MatrixRef(rows, cols, g.nodes[idx.id].dataId, MatrixMeta(false, rows))
  {
    if idx.id < |g.nodes| then Returns(MatrixRef(rows, cols, g.nodes[idx.id].dataId, MatrixMeta(false, rows)))
    else Panics(IndexOutOfBounds)
  }

  /**
    `Graph::get_scalar`: the scalar's slot is downloaded (`download`, the device-to-host copy
    of that slot) and its first element returned. A missing slot or an empty download
    panics; a failed download returns its error.
   */
  function GetScalar<T, N, D>(g: Graph<N, D>, s: ScalarRef, download: Result<seq<T>>): (r: Run<Result<T>>)
    ensures s.slot >= |g.data| ==> r == Panics(IndexOutOfBounds)
    ensures s.slot < |g.data| && download.Err? ==> r == Returns(Err(download.error))
    ensures s.slot < |g.data| && download.Ok? ==>
              (|download.value| == 0 <==> r == Panics(IndexOutOfBounds))
    ensures r.Returns? && r.value.Ok? ==> download.Ok? && [r.value.value] <= download.value
  {
    if s.slot >= |g.data| then Panics(IndexOutOfBounds)
    else
      match download
      case Err(e) => Returns(Err(e))
      case Ok(host) => if |host| == 0 then Panics(IndexOutOfBounds) else Returns(Ok(host[0]))
  }

  /** `Graph::get_matrix`: the whole download of the matrix's slot. */
  function GetMatrix<T, N, D>(g: Graph<N, D>, m: MatrixRef, download: Result<seq<T>>): (r: Run<Result<seq<T>>>)
    ensures m.slot >= |g.data| <==> r == Panics(IndexOutOfBounds)
    ensures m.slot < |g.data| ==> r == Returns(download)
  {
    if m.slot >= |g.data| then Panics(IndexOutOfBounds) else Returns(download)
  }

  /**
    `scalar` followed by `get_scalar` gives the value back, on a backend whose device slots
    hold the host vectors uploaded into them (`htod(vec![value])` stores `[value]`, and
    `dtoh` of a slot returns what it holds). The new slot is the graph's next one.
   */
  lemma ScalarRoundTrip<T, N>(g: Graph<N, seq<T>>, symbol: string, value: T)
    ensures var (g', s) := NewScalar(g, symbol, Ok([value]));
            && s.Ok? && s.value.slot == |g.data| && s.value.symbol == symbol
            && s.value.slot < |g'.data|
            && GetScalar(g', s.value, Ok(g'.data[s.value.slot])) == Returns(Ok(value))
  {
  }

  /**
    `matrix::<R, C>` followed by `get_matrix` gives back the `R * C` values in the order
    given, on the same backend.
   */
  lemma MatrixRoundTrip<T, N>(g: Graph<N, seq<T>>, rows: nat, cols: nat, value: seq<T>)
    requires rows * cols == |value|
    ensures NewMatrix(g, rows, cols, value, Ok(value)).Returns?
    ensures var (g', m) := NewMatrix(g, rows, cols, value, Ok(value)).value;
            && m.Ok? && m.value.rows == rows && m.value.cols == cols
            && m.value.slot == |g.data| && m.value.slot < |g'.data|
            && GetMatrix(g', m.value, Ok(g'.data[m.value.slot])) == Returns(Ok(value))
            && |value| == m.value.rows * m.value.cols
  {
  }

  /**
    The index `insert` returns names its node's own slot through `as_scalar`, `as_matrix`
    and `data` alike: for a new node the slot just allocated, holding the allocated value;
    for a deduplicated node the slot it already had.
   */
  lemma InsertedIndexReadsItsSlot<N, D>(g: Graph<N, D>, node: N, hashes: seq<NodeHash>, alloc: Result<D>,
                                        rows: nat, cols: nat)
    requires Valid(g) && Insert(g, node, hashes, alloc).Returns?
    ensures var (g', idx) := Insert(g, node, hashes, alloc).value;
            AsScalar(g', idx).Returns?
            && var slot := AsScalar(g', idx).value.slot;
            && slot < |g'.data|
            && AsMatrix(g', idx, rows, cols) == Returns(MatrixRef(rows, cols, slot, MatrixMeta(false, rows)))
            && Data(g', idx) == Returns(g'.data[slot])
            && (idx.id == |g.nodes| ==> slot == |g.data| && alloc.Ok? && g'.data[slot] == alloc.value)
            && (idx.id < |g.nodes| ==> slot == g.nodes[idx.id].dataId && g'.data[slot] == g.data[slot])
  {
    InsertKeepsValid(g, node, hashes, alloc);
    var (g', idx) := Insert(g, node, hashes, alloc).value;
    if idx.id < |g.nodes| {
      assert g'.nodes[idx.id] == g'.nodes[..|g.nodes|][idx.id];
      assert g'.data[g.nodes[idx.id].dataId] == g'.data[..|g.data|][g.nodes[idx.id].dataId];
    }
  }

  /**
    `Scalar::hash` and `Matrix::hash`: the type tag of the node's type and its one slot. A
    scalar's symbol, and a matrix's shape and metadata beyond its type, are not hashed.
   */
  function SlotHash(tag: nat, slot: nat): (h: NodeHash)
    ensures h.typeId == tag && h.dataId == [slot]
  {
    NodeHash(tag, [slot])
  }

  /**
    Two leaves hash alike exactly when their types and slots agree: scalars sharing a slot
    are deduplicated into one node whatever their symbols.
   */
  lemma SlotHashInjective(tag1: nat, slot1: nat, tag2: nat, slot2: nat)
    ensures SlotHash(tag1, slot1) == SlotHash(tag2, slot2) <==> tag1 == tag2 && slot1 == slot2
  {
    if SlotHash(tag1, slot1) == SlotHash(tag2, slot2) {
      assert SlotHash(tag1, slot1).dataId[0] == slot1;
    }
  }

  /** `Scalar::compile`: insert under the scalar's own hash, allocating one element. */
  function CompileScalar<D>(g: Graph<Payload, D>, s: ScalarRef, tag: nat, alloc: Result<D>)
    : (r: Run<(Graph<Payload, D>, NodeIndex)>)
    ensures r.Returns? ==> r.value.1.hash == SlotHash(tag, s.slot)
    ensures SlotHash(tag, s.slot) in g.cache ==> r == Returns((g, NodeIndex(g.cache[SlotHash(tag, s.slot)], SlotHash(tag, s.slot))))
    ensures SlotHash(tag, s.slot) !in g.cache && alloc.Ok? ==>
              r.Returns? && r.value.0.nodes == g.nodes + [CompiledNode(ScalarNode(s), |g.data|)]
  {
    Insert(g, ScalarNode(s), [SlotHash(tag, s.slot)], alloc)
  }

  /** `Matrix::compile`: insert under the matrix's own hash, allocating `R * C` elements. */
  function CompileMatrix<D>(g: Graph<Payload, D>, m: MatrixRef, tag: nat, alloc: Result<D>)
    : (r: Run<(Graph<Payload, D>, NodeIndex)>)
    ensures r.Returns? ==> r.value.1.hash == SlotHash(tag, m.slot)
    ensures SlotHash(tag, m.slot) in g.cache ==> r == Returns((g, NodeIndex(g.cache[SlotHash(tag, m.slot)], SlotHash(tag, m.slot))))
    ensures SlotHash(tag, m.slot) !in g.cache && alloc.Ok? ==>
              r.Returns? && r.value.0.nodes == g.nodes + [CompiledNode(MatrixNode(m), |g.data|)]
  {
    Insert(g, MatrixNode(m), [SlotHash(tag, m.slot)], alloc)
  }

  /**
    Compiling the same scalar again returns the same index and leaves the graph as the
    first compilation left it, whatever the second allocation would have given.
   */
  lemma CompileScalarIdempotent<D>(g: Graph<Payload, D>, s: ScalarRef, tag: nat, alloc: Result<D>, alloc': Result<D>)
    requires Valid(g) && CompileScalar(g, s, tag, alloc).Returns?
    ensures var (g1, idx) := CompileScalar(g, s, tag, alloc).value;
            CompileScalar(g1, s, tag, alloc') == Returns((g1, idx))
            && |g1.nodes| <= |g.nodes| + 1
  {
  }

  /** The same for matrices. */
  lemma CompileMatrixIdempotent<D>(g: Graph<Payload, D>, m: MatrixRef, tag: nat, alloc: Result<D>, alloc': Result<D>)
    requires Valid(g) && CompileMatrix(g, m, tag, alloc).Returns?
    ensures var (g1, idx) := CompileMatrix(g, m, tag, alloc).value;
            CompileMatrix(g1, m, tag, alloc') == Returns((g1, idx))
            && |g1.nodes| <= |g.nodes| + 1
  {
  }
}
