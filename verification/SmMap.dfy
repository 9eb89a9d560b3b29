/**
 * The state machine stored as two byte-keyed hash maps: the userspace loop that
 * fills them and the in-kernel lookups that read them.
 */
module SmMap {
  import opened Options
  import opened Numbers
  import opened CStrings
  import opened StateMachine

  const SM_NAME_MAX := 32
  const SM_LABEL_MAX := 48
  const SM_NODE_MAP_MAX_ENTRIES := 64
  const SM_EDGE_MAP_MAX_ENTRIES := 128
  const E2BIG := 7

  type NameBuf = s: string | |s| == SM_NAME_MAX witness Zeros(SM_NAME_MAX)
  type LabelBuf = s: string | |s| == SM_LABEL_MAX witness Zeros(SM_LABEL_MAX)

  datatype EdgeKey = EdgeKey(src: NameBuf, event: LabelBuf)

  function NameKey(name: string): NameBuf {
    Padded(name, SM_NAME_MAX)
  }

  function KeyOf(src: string, event: string): EdgeKey {
    EdgeKey(Padded(src, SM_NAME_MAX), Padded(event, SM_LABEL_MAX))
  }

  // ----- storing the rows of a table one after the other -----

  /** `m` after the first `n` rows are stored in order, a later row overwriting an equal key. */
  function StoreRows<K, V>(m: map<K, V>, key: nat -> K, val: nat -> V, n: nat): map<K, V> {
    if n == 0 then m else StoreRows(m, key, val, n - 1)[key(n - 1) := val(n - 1)]
  }

  ghost predicate DistinctKeys<K(!new)>(key: nat -> K, n: nat) {
    forall i: nat, j: nat :: i < n && j < n && key(i) == key(j) ==> i == j
  }

  /** A table with distinct keys is stored exactly: every row is found, and nothing else is added. */
  lemma {:induction false} RowsStored<K(!new), V(!new)>(m: map<K, V>, key: nat -> K, val: nat -> V, n: nat)
    requires DistinctKeys(key, n)
    ensures forall i: nat :: i < n ==>
              key(i) in StoreRows(m, key, val, n) && StoreRows(m, key, val, n)[key(i)] == val(i)
    ensures forall x :: x in StoreRows(m, key, val, n) ==> x in m || exists i: nat :: i < n && key(i) == x
    ensures forall x :: x in m ==> x in StoreRows(m, key, val, n)
    ensures forall x :: x in m && (forall i: nat :: i < n ==> key(i) != x) ==> StoreRows(m, key, val, n)[x] == m[x]
  {
    if n > 0 {
      RowsStored(m, key, val, n - 1);
    }
  }

  /** The map holds the first `n` rows and nothing else. */
  ghost predicate HoldsRows<K(!new), V>(m: map<K, V>, key: nat -> K, val: nat -> V, n: nat) {
    && (forall i: nat :: i < n ==> key(i) in m && m[key(i)] == val(i))
    && (forall x :: x in m ==> exists i: nat :: i < n && key(i) == x)
  }

  /** Loading a table of `n` distinct keys into an empty map gives that table, in exactly `n` entries. */
  lemma {:induction false} RowsHeld<K(!new), V(!new)>(key: nat -> K, val: nat -> V, n: nat)
    requires DistinctKeys(key, n)
    ensures HoldsRows(StoreRows(map[], key, val, n), key, val, n)
    ensures |StoreRows(map[], key, val, n)| == n
  {
    RowsStored(map[], key, val, n);
    RowsCounted(key, val, n);
  }

  lemma {:induction false} RowsCounted<K(!new), V(!new)>(key: nat -> K, val: nat -> V, n: nat)
    requires DistinctKeys(key, n)
    ensures |StoreRows(map[], key, val, n)| == n
  {
    if n > 0 {
      RowsCounted(key, val, n - 1);
      RowsStored(map[], key, val, n - 1);
      var before := StoreRows(map[], key, val, n - 1);
      assert key(n - 1) !in before;
      assert StoreRows(map[], key, val, n).Keys == before.Keys + {key(n - 1)};
    }
  }

  /** Loading the same table again changes nothing. */
  lemma {:induction false} RowsStoredAgain<K(!new), V(!new)>(m: map<K, V>, key: nat -> K, val: nat -> V, n: nat)
    requires DistinctKeys(key, n)
    ensures StoreRows(StoreRows(m, key, val, n), key, val, n) == StoreRows(m, key, val, n)
  {
    var once := StoreRows(m, key, val, n);
    var twice := StoreRows(once, key, val, n);
    RowsStored(m, key, val, n);
    RowsStored(once, key, val, n);
    forall x | x in twice
      ensures x in once && twice[x] == once[x]
    {
      if i: nat :| i < n && key(i) == x {
        assert twice[key(i)] == val(i) == once[key(i)];
      }
    }
  }

  // ----- the two tables as rows of keys and values -----

  function NodeRowKey(i: nat): NameBuf {
    NameKey(Name(NodeAt(i).node))
  }

  function NodeRowKind(i: nat): Kind {
    NodeAt(i).kind
  }

  function EdgeRowKey(i: nat): EdgeKey {
    KeyOf(Name(EdgeAt(i).src), Text(EdgeAt(i).event))
  }

  function EdgeRowTarget(i: nat): NameBuf {
    NameKey(Name(EdgeAt(i).dst))
  }

  function NodesAfter(m: map<NameBuf, Kind>, n: nat): map<NameBuf, Kind> {
    StoreRows(m, NodeRowKey, NodeRowKind, n)
  }

  function EdgesAfter(m: map<EdgeKey, NameBuf>, n: nat): map<EdgeKey, NameBuf> {
    StoreRows(m, EdgeRowKey, EdgeRowTarget, n)
  }

  lemma NameKeysDistinct(a: Node, b: Node)
    requires NameKey(Name(a)) == NameKey(Name(b))
    ensures a == b
  {
    NamesFit(a);
    NamesFit(b);
    TruncationNeverMatches(Name(a), Name(b), SM_NAME_MAX);
    NamesDistinct(a, b);
  }

  lemma EdgeKeysDistinct(a: Node, x: Label, b: Node, y: Label)
    requires KeyOf(Name(a), Text(x)) == KeyOf(Name(b), Text(y))
    ensures a == b && x == y
  {
    NameKeysDistinct(a, b);
    TextsFit(x);
    TextsFit(y);
    TruncationNeverMatches(Text(x), Text(y), SM_LABEL_MAX);
    TextsDistinct(x, y);
  }

  /** The 52 keys are distinct. */
  lemma EdgeRowKeysDistinct()
    ensures DistinctKeys(EdgeRowKey, EDGE_COUNT)
  {
    forall i: nat, j: nat | i < EDGE_COUNT && j < EDGE_COUNT && EdgeRowKey(i) == EdgeRowKey(j)
      ensures i == j
    {
      EdgeKeysDistinct(EdgeAt(i).src, EdgeAt(i).event, EdgeAt(j).src, EdgeAt(j).event);
      RowsComplete(i);
      RowsComplete(j);
    }
  }

  lemma NodeRowKeysDistinct()
    ensures DistinctKeys(NodeRowKey, NODE_COUNT)
  {
    forall i: nat, j: nat | i < NODE_COUNT && j < NODE_COUNT && NodeRowKey(i) == NodeRowKey(j)
      ensures i == j
    {
      NameKeysDistinct(NodeAt(i).node, NodeAt(j).node);
      NodeRowsDistinct(i, j);
    }
  }

  // ----- lookups over the populated maps -----

  /** `sm_transition_lookup`, on the contents of the edge map. */
  function FindEdge(edges: map<EdgeKey, NameBuf>, src: string, event: string): Option<NameBuf> {
    if KeyOf(src, event) in edges then Some(edges[KeyOf(src, event)]) else None
  }

  /** `sm_node_lookup`, on the contents of the node map. */
  function FindNode(nodes: map<NameBuf, Kind>, name: string): Option<Kind> {
    if NameKey(name) in nodes then Some(nodes[NameKey(name)]) else None
  }

  /** The table has a row with exactly these three strings. */
  ghost predicate InEdgeTable(src: string, dst: string, event: string) {
    exists i: nat :: i < EDGE_COUNT && IsEdgeRow(i, src, dst, event)
  }

  ghost predicate IsEdgeRow(i: nat, src: string, dst: string, event: string) {
    Name(EdgeAt(i).src) == src && Name(EdgeAt(i).dst) == dst && Text(EdgeAt(i).event) == event
  }

  ghost predicate HoldsEdgeTable(edges: map<EdgeKey, NameBuf>) {
    HoldsRows(edges, EdgeRowKey, EdgeRowTarget, EDGE_COUNT)
  }

  ghost predicate HoldsNodeTable(nodes: map<NameBuf, Kind>) {
    HoldsRows(nodes, NodeRowKey, NodeRowKind, NODE_COUNT)
  }

  /**
   * Loading from empty stores the two tables exactly: 29 and 52 entries.  Here and below the counts are
   * parameters, as Dafny would unroll a load of a constant number of rows.
   */
  lemma LoadedFromEmpty(nodeCount: nat, edgeCount: nat)
    requires nodeCount == NODE_COUNT && edgeCount == EDGE_COUNT
    ensures HoldsNodeTable(NodesAfter(map[], nodeCount)) && |NodesAfter(map[], nodeCount)| == nodeCount
    ensures HoldsEdgeTable(EdgesAfter(map[], edgeCount)) && |EdgesAfter(map[], edgeCount)| == edgeCount
  {
    NodeRowKeysDistinct();
    EdgeRowKeysDistinct();
    RowsHeld(NodeRowKey, NodeRowKind, nodeCount);
    RowsHeld(EdgeRowKey, EdgeRowTarget, edgeCount);
  }

  lemma FoundRow(edges: map<EdgeKey, NameBuf>, key: EdgeKey) returns (i: nat)
    requires HoldsEdgeTable(edges) && key in edges
    ensures i < EDGE_COUNT && key == EdgeRowKey(i) && edges[key] == EdgeRowTarget(i)
  {
    i :| i < EDGE_COUNT && EdgeRowKey(i) == key;
  }

  /** A key of arbitrary strings equals the key of a row only when the strings are those of the row. */
  lemma KeyMatchesRow(src: string, event: string, a: Node, x: Label)
    requires NUL !in src && NUL !in event
    ensures KeyOf(src, event) == KeyOf(Name(a), Text(x)) <==> src == Name(a) && event == Text(x)
  {
    NamesFit(a);
    TextsFit(x);
    TruncationNeverMatches(Name(a), src, SM_NAME_MAX);
    TruncationNeverMatches(Text(x), event, SM_LABEL_MAX);
  }

  lemma TargetReadsBack(d: Node)
    ensures CStr(NameKey(Name(d))) == Name(d)
  {
    NamesFit(d);
    CStrOfPadded(Name(d), SM_NAME_MAX);
  }

  /**
   * The populated byte-keyed map answers exactly like the table of strings, for
   * all C strings of any length: it finds `dst` just when (src, dst, event) is a row.
   */
  lemma TransitionLookupExact(edges: map<EdgeKey, NameBuf>, src: string, event: string, dst: string)
    requires HoldsEdgeTable(edges)
    requires NUL !in src && NUL !in event
    ensures (FindEdge(edges, src, event).Some? && CStr(FindEdge(edges, src, event).value) == dst)
            <==> InEdgeTable(src, dst, event)
  {
    if InEdgeTable(src, dst, event) {
      var i: nat :| i < EDGE_COUNT && IsEdgeRow(i, src, dst, event);
      assert KeyOf(src, event) == EdgeRowKey(i);
      TargetReadsBack(EdgeAt(i).dst);
    }
    if KeyOf(src, event) in edges {
      var i := FoundRow(edges, KeyOf(src, event));
      KeyMatchesRow(src, event, EdgeAt(i).src, EdgeAt(i).event);
      TargetReadsBack(EdgeAt(i).dst);
      assert IsEdgeRow(i, src, Name(EdgeAt(i).dst), event);
    }
  }

  lemma RowIsFound(edges: map<EdgeKey, NameBuf>, i: nat)
    requires HoldsEdgeTable(edges) && i < EDGE_COUNT
    ensures FindEdge(edges, Name(EdgeAt(i).src), Text(EdgeAt(i).event)) == Some(NameKey(Name(EdgeAt(i).dst)))
  {
    assert EdgeRowKey(i) in edges && edges[EdgeRowKey(i)] == EdgeRowTarget(i);
  }

  lemma OnlyRowsAreFound(edges: map<EdgeKey, NameBuf>, src: Node, event: Label)
    requires HoldsEdgeTable(edges)
    requires KeyOf(Name(src), Text(event)) in edges
    ensures Row(src, event).Some?
  {
    var i := FoundRow(edges, KeyOf(Name(src), Text(event)));
    var row := EdgeAt(i);
    EdgeKeysDistinct(src, event, row.src, row.event);
    RowsComplete(i);
  }

  lemma NextIsFound(edges: map<EdgeKey, NameBuf>, src: Node, event: Label)
    requires HoldsEdgeTable(edges) && Row(src, event).Some?
    ensures FindEdge(edges, Name(src), Text(event)) == NameOfNext(Next(src, event))
  {
    RowSound(src, event);
    RowIsFound(edges, Row(src, event).value);
  }

  /** On names and labels of the table, the lookup is the transition function `Next`. */
  lemma TransitionLookupIsNext(edges: map<EdgeKey, NameBuf>, src: Node, event: Label)
    requires HoldsEdgeTable(edges)
    ensures FindEdge(edges, Name(src), Text(event)) == NameOfNext(Next(src, event))
  {
    if Row(src, event).Some? {
      NextIsFound(edges, src, event);
    } else if KeyOf(Name(src), Text(event)) in edges {
      OnlyRowsAreFound(edges, src, event);
    }
  }

  function NameOfNext(next: Option<Node>): Option<NameBuf> {
    match next
    case Some(d) => Some(NameKey(Name(d)))
    case None => None
  }

  /** The populated node map knows exactly the 29 names, each with its kind. */
  lemma NodeLookupExact(nodes: map<NameBuf, Kind>, name: string, kind: Kind)
    requires HoldsNodeTable(nodes)
    requires NUL !in name
    ensures FindNode(nodes, name) == Some(kind)
            <==> exists i: nat :: i < NODE_COUNT && Name(NodeAt(i).node) == name && NodeAt(i).kind == kind
  {
    NodeRowKeysDistinct();
    if i: nat :| i < NODE_COUNT && Name(NodeAt(i).node) == name && NodeAt(i).kind == kind {
      assert NameKey(name) == NodeRowKey(i);
    }
    if NameKey(name) in nodes {
      var i: nat :| i < NODE_COUNT && NodeRowKey(i) == NameKey(name);
      NamesFit(NodeAt(i).node);
      TruncationNeverMatches(Name(NodeAt(i).node), name, SM_NAME_MAX);
    }
  }

  /** Repopulating changes nothing. */
  lemma RepopulationIsIdle(nodes: map<NameBuf, Kind>, edges: map<EdgeKey, NameBuf>, nodeCount: nat, edgeCount: nat)
    requires nodeCount == NODE_COUNT && edgeCount == EDGE_COUNT
    ensures NodesAfter(NodesAfter(nodes, nodeCount), nodeCount) == NodesAfter(nodes, nodeCount)
    ensures EdgesAfter(EdgesAfter(edges, edgeCount), edgeCount) == EdgesAfter(edges, edgeCount)
  {
    NodeRowKeysDistinct();
    EdgeRowKeysDistinct();
    RowsStoredAgain(nodes, NodeRowKey, NodeRowKind, nodeCount);
    RowsStoredAgain(edges, EdgeRowKey, EdgeRowTarget, edgeCount);
  }

  // ----- the maps themselves -----

  /** A key field as the BPF side fills it: a zeroed buffer and the copy loop. */
  method KernelKey(src: string, size: nat) returns (field: string)
    requires size > 0
    requires NUL in src || size - 1 <= |src|
    ensures field == Padded(CStr(src), size)
  {
    var buf := new char[size](i => NUL);
    assert buf[..] == Zeros(size);
    KeySet(buf, src);
    WritersAgree(CStr(src), Min(|CStr(src)|, size - 1), size);
    field := buf[..];
  }

  /** A key field as the loader fills it: a zeroed buffer and `snprintf` from a literal. */
  method UserKey(text: string, size: nat) returns (field: string)
    requires size > 0 && NUL !in text
    ensures field == Padded(text, size)
  {
    var buf := new char[size](i => NUL);
    assert buf[..] == Zeros(size);
    Snprintf(buf, Terminated(text));
    WritersAgree(text, Min(|text|, size - 1), size);
    field := buf[..];
  }

  /** Result of an update on a hash map with `cap` entries: a fault of its own, or no room for a new key. */
  function UpdateError<K, V>(m: map<K, V>, key: K, cap: nat, fault: int): int {
    if fault != 0 then fault else if key !in m && |m| >= cap then -E2BIG else 0
  }

  /** An update goes through just when nothing of its own is wrong and the key is there or there is room for it. */
  lemma UpdateIsRefused<K, V>(m: map<K, V>, key: K, cap: nat, fault: int)
    ensures UpdateError(m, key, cap, fault) == 0 <==> fault == 0 && (key in m || |m| < cap)
    ensures fault != 0 ==> UpdateError(m, key, cap, fault) == fault
    ensures fault == 0 && key !in m && |m| >= cap ==> UpdateError(m, key, cap, fault) == -7
  {
  }

  /** The map and the error after a load. */
  datatype Loaded<K, V> = Loaded(contents: map<K, V>, err: int)

  /** Storing `n` rows one after the other, up to the first that is refused. */
  function Load<K, V>(m: map<K, V>, key: nat -> K, val: nat -> V, cap: nat, fault: nat -> int, n: nat): Loaded<K, V> {
    if n == 0 then Loaded(m, 0)
    else LoadRow(Load(m, key, val, cap, fault, n - 1), key(n - 1), val(n - 1), cap, fault(n - 1))
  }

  function LoadRow<K, V>(before: Loaded<K, V>, k: K, v: V, cap: nat, fault: int): Loaded<K, V> {
    if before.err != 0 then before
    else
      var err := UpdateError(before.contents, k, cap, fault);
      Loaded(if err == 0 then before.contents[k := v] else before.contents, err)
  }

  lemma {:induction false} LoadStops<K, V>(m: map<K, V>, key: nat -> K, val: nat -> V, cap: nat, fault: nat -> int,
                                           i: nat, n: nat)
    requires i <= n && Load(m, key, val, cap, fault, i).err != 0
    ensures Load(m, key, val, cap, fault, n) == Load(m, key, val, cap, fault, i)
  {
    if i < n {
      LoadStops(m, key, val, cap, fault, i, n - 1);
    }
  }

  /** Row `i` is the first that is refused, with this error; the rows before it are stored. */
  ghost predicate StopsAt<K, V>(m: map<K, V>, key: nat -> K, val: nat -> V, cap: nat, fault: nat -> int, i: nat,
                                r: Loaded<K, V>) {
    && Load(m, key, val, cap, fault, i) == Loaded(StoreRows(m, key, val, i), 0)
    && r == Loaded(StoreRows(m, key, val, i), UpdateError(StoreRows(m, key, val, i), key(i), cap, fault(i)))
    && r.err != 0
  }

  /** A load stores all rows, or those before the first that is refused, whose error it returns. */
  lemma {:induction false} LoadStoresRows<K, V>(m: map<K, V>, key: nat -> K, val: nat -> V, cap: nat,
                                                fault: nat -> int, n: nat)
    ensures var r := Load(m, key, val, cap, fault, n);
            if r.err == 0 then r.contents == StoreRows(m, key, val, n)
            else exists i: nat :: i < n && StopsAt(m, key, val, cap, fault, i, r)
  {
    if n > 0 {
      LoadStoresRows(m, key, val, cap, fault, n - 1);
      var before, r := Load(m, key, val, cap, fault, n - 1), Load(m, key, val, cap, fault, n);
      if before.err == 0 && r.err != 0 {
        assert StopsAt(m, key, val, cap, fault, n - 1, r);
      }
    }
  }

  /** A load that fits is only refused by a fault. */
  lemma LoadInRoomSucceeds<K, V>(m: map<K, V>, key: nat -> K, val: nat -> V, cap: nat, fault: nat -> int, n: nat)
    requires |m| + n <= cap && forall i :: fault(i) == 0
    ensures Load(m, key, val, cap, fault, n) == Loaded(StoreRows(m, key, val, n), 0)
  {
    var r := Load(m, key, val, cap, fault, n);
    LoadStoresRows(m, key, val, cap, fault, n);
    if r.err != 0 {
      var i: nat :| i < n && StopsAt(m, key, val, cap, fault, i, r);
      SizeAfter(m, key, val, i);
      assert false;
    }
  }

  /** The load of each table into its map. */
  function LoadNodes(m: map<NameBuf, Kind>, fault: nat -> int, n: nat): Loaded<NameBuf, Kind> {
    Load(m, NodeRowKey, NodeRowKind, SM_NODE_MAP_MAX_ENTRIES, fault, n)
  }

  function LoadEdges(m: map<EdgeKey, NameBuf>, fault: nat -> int, n: nat): Loaded<EdgeKey, NameBuf> {
    Load(m, EdgeRowKey, EdgeRowTarget, SM_EDGE_MAP_MAX_ENTRIES, fault, n)
  }

  /** The maps have 64 and 128 places: one that is full of other keys gets no row, and the load ends with -E2BIG. */
  lemma FullMapsRefuse(nodes: map<NameBuf, Kind>, edges: map<EdgeKey, NameBuf>, fault: nat -> int, n: nat)
    requires n > 0 && fault(0) == 0
    ensures |nodes| >= 64 && NodeRowKey(0) !in nodes ==> LoadNodes(nodes, fault, n) == Loaded(nodes, -7)
    ensures |edges| >= 128 && EdgeRowKey(0) !in edges ==> LoadEdges(edges, fault, n) == Loaded(edges, -7)
  {
    if |nodes| >= 64 && NodeRowKey(0) !in nodes {
      FirstRowRefused(nodes, NodeRowKey, NodeRowKind, 64, fault, n);
    }
    if |edges| >= 128 && EdgeRowKey(0) !in edges {
      FirstRowRefused(edges, EdgeRowKey, EdgeRowTarget, 128, fault, n);
    }
  }

  lemma FirstRowRefused<K, V>(m: map<K, V>, key: nat -> K, val: nat -> V, cap: nat, fault: nat -> int, n: nat)
    requires n > 0 && fault(0) == 0 && |m| >= cap && key(0) !in m
    ensures Load(m, key, val, cap, fault, n) == Loaded(m, -7)
  {
    assert Load(m, key, val, cap, fault, 0) == Loaded(m, 0);
    LoadStops(m, key, val, cap, fault, 1, n);
  }

  /** One place less full, the first row is stored. */
  lemma LastPlaceIsUsed(nodes: map<NameBuf, Kind>, edges: map<EdgeKey, NameBuf>, fault: nat -> int, n: nat)
    requires n == 1 && fault(0) == 0
    ensures |nodes| < 64 ==> LoadNodes(nodes, fault, n) == Loaded(nodes[NodeRowKey(0) := NodeRowKind(0)], 0)
    ensures |edges| < 128 ==> LoadEdges(edges, fault, n) == Loaded(edges[EdgeRowKey(0) := EdgeRowTarget(0)], 0)
  {
    assert Load(nodes, NodeRowKey, NodeRowKind, 64, fault, 0) == Loaded(nodes, 0);
    assert Load(edges, EdgeRowKey, EdgeRowTarget, 128, fault, 0) == Loaded(edges, 0);
  }

  lemma {:induction false} SizeAfter<K, V>(m: map<K, V>, key: nat -> K, val: nat -> V, n: nat)
    ensures |StoreRows(m, key, val, n)| <= |m| + n
  {
    if n > 0 {
      SizeAfter(m, key, val, n - 1);
      var before := StoreRows(m, key, val, n - 1);
      assert StoreRows(m, key, val, n).Keys == before.Keys + {key(n - 1)};
    }
  }

  /** So the two tables load into empty maps: 29 rows into 64 places and 52 into 128. */
  lemma FreshLoadSucceeds(fault: nat -> int, nodeCount: nat, edgeCount: nat)
    requires nodeCount == NODE_COUNT && edgeCount == EDGE_COUNT && forall i :: fault(i) == 0
    ensures LoadNodes(map[], fault, nodeCount) == Loaded(NodesAfter(map[], nodeCount), 0)
    ensures LoadEdges(map[], fault, edgeCount) == Loaded(EdgesAfter(map[], edgeCount), 0)
  {
    LoadInRoomSucceeds(map[], NodeRowKey, NodeRowKind, SM_NODE_MAP_MAX_ENTRIES, fault, nodeCount);
    LoadInRoomSucceeds(map[], EdgeRowKey, EdgeRowTarget, SM_EDGE_MAP_MAX_ENTRIES, fault, edgeCount);
  }

  class SmMaps {
    var nodes: map<NameBuf, Kind>
    var edges: map<EdgeKey, NameBuf>

    /** Both maps start empty at program load. */
    constructor ()
      ensures nodes == map[] && edges == map[]
    {
      nodes, edges := map[], map[];
    }

    method UpdateNode(key: NameBuf, val: Kind, fault: int) returns (err: int)
      modifies this`nodes
      ensures err == UpdateError(old(nodes), key, SM_NODE_MAP_MAX_ENTRIES, fault)
      ensures nodes == if err == 0 then old(nodes)[key := val] else old(nodes)
    {
      err := UpdateError(nodes, key, SM_NODE_MAP_MAX_ENTRIES, fault);
      if err == 0 {
        nodes := nodes[key := val];
      }
    }

    method UpdateEdge(key: EdgeKey, val: NameBuf, fault: int) returns (err: int)
      modifies this`edges
      ensures err == UpdateError(old(edges), key, SM_EDGE_MAP_MAX_ENTRIES, fault)
      ensures edges == if err == 0 then old(edges)[key := val] else old(edges)
    {
      err := UpdateError(edges, key, SM_EDGE_MAP_MAX_ENTRIES, fault);
      if err == 0 {
        edges := edges[key := val];
      }
    }

    /** One turn of the node loop: build the key, build the value, update. */
    method StoreNodeRow(i: nat, fault: int) returns (err: int)
      modifies this`nodes
      ensures Loaded(nodes, err)
           == LoadRow(Loaded(old(nodes), 0), NodeRowKey(i), NodeRowKind(i), SM_NODE_MAP_MAX_ENTRIES, fault)
    {
      var row := NodeAt(i);
      NamesFit(row.node);
      var key := UserKey(Name(row.node), SM_NAME_MAX);
      err := UpdateNode(key, row.kind, fault);
    }

    /** One turn of the edge loop. */
    method StoreEdgeRow(i: nat, fault: int) returns (err: int)
      modifies this`edges
      ensures Loaded(edges, err)
           == LoadRow(Loaded(old(edges), 0), EdgeRowKey(i), EdgeRowTarget(i), SM_EDGE_MAP_MAX_ENTRIES, fault)
    {
      var row := EdgeAt(i);
      NamesFit(row.src);
      TextsFit(row.event);
      NamesFit(row.dst);
      var from := UserKey(Name(row.src), SM_NAME_MAX);
      var text := UserKey(Text(row.event), SM_LABEL_MAX);
      var target := UserKey(Name(row.dst), SM_NAME_MAX);
      err := UpdateEdge(EdgeKey(from, text), target, fault);
    }

    /**
     * `sm_map_populate`: stores every node row, then every edge row, and stops at
     * the first update that fails, with its error.  `nodeFault` and `edgeFault` give the
     * error an update meets for reasons of its own (0 for none).
     */
    method Populate(nodeFault: nat -> int, edgeFault: nat -> int) returns (err: int)
      modifies this
      ensures var n := LoadNodes(old(nodes), nodeFault, NODE_COUNT);
              var e := LoadEdges(old(edges), edgeFault, EDGE_COUNT);
              && nodes == n.contents && edges == (if n.err == 0 then e.contents else old(edges))
              && err == if n.err == 0 then e.err else n.err
    {
      ghost var nodes0, edges0 := nodes, edges;
      for i := 0 to NODE_COUNT
        invariant Loaded(nodes, 0) == LoadNodes(nodes0, nodeFault, i) && edges == edges0
      {
        err := StoreNodeRow(i, nodeFault(i));
        if err != 0 {
          LoadStops(nodes0, NodeRowKey, NodeRowKind, SM_NODE_MAP_MAX_ENTRIES, nodeFault, i + 1, NODE_COUNT);
          return;
        }
      }
      for i := 0 to EDGE_COUNT
        invariant Loaded(nodes, 0) == LoadNodes(nodes0, nodeFault, NODE_COUNT)
        invariant Loaded(edges, 0) == LoadEdges(edges0, edgeFault, i)
      {
        err := StoreEdgeRow(i, edgeFault(i));
        if err != 0 {
          LoadStops(edges0, EdgeRowKey, EdgeRowTarget, SM_EDGE_MAP_MAX_ENTRIES, edgeFault, i + 1, EDGE_COUNT);
          return;
        }
      }
      err := 0;
    }

    method NodeLookup(name: string) returns (r: Option<Kind>)
      requires NUL in name || SM_NAME_MAX - 1 <= |name|
      ensures r == FindNode(nodes, CStr(name))
    {
      var key := KernelKey(name, SM_NAME_MAX);
      r := if key in nodes then Some(nodes[key]) else None;
    }

    method TransitionLookup(src: string, event: string) returns (r: Option<NameBuf>)
      requires NUL in src || SM_NAME_MAX - 1 <= |src|
      requires NUL in event || SM_LABEL_MAX - 1 <= |event|
      ensures r == FindEdge(edges, CStr(src), CStr(event))
    {
      var from := KernelKey(src, SM_NAME_MAX);
      var text := KernelKey(event, SM_LABEL_MAX);
      var key := EdgeKey(from, text);
      r := if key in edges then Some(edges[key]) else None;
    }
  }
}
