/** The world wrapper of src/world.rs: the Rust-side decisions around the lilv world.
    Every native call is outside this model; its result (a pointer, a status code or
    a byte) is an input here, or a function parameter when the arguments it receives
    matter. The lock around the world pointer is not modelled: one call at a time. */
module Registry {
  import opened Common

  /** `Rc<World>`: the shared world, identified by its native pointer. */
  datatype World = World(native: nat)

  /** `Node<T> { node, world, owned }` as this file builds it. */
  datatype NodeRef = NodeRef(node: Ptr, world: World, owned: bool)

  /** `Nodes<T> { nodes, world, owned, .. }`: a native node collection. */
  datatype Nodes = Nodes(nodes: Ptr, world: World, owned: bool)

  /** `new_node`: a node the caller owns and must free. */
  function NewNode(w: World, p: Ptr): (n: NodeRef)
    ensures n.owned && n.world == w && n.node == p
  {
    NodeRef(p, w, true)
  }

  /** `ref_node`: a node borrowed from the world or a collection. */
  function RefNode(w: World, p: Ptr): (n: NodeRef)
    ensures !n.owned && n.world == w && n.node == p
  {
    NodeRef(p, w, false)
  }

  /** The two constructors differ in the ownership flag and nothing else. */
  lemma NewAndRefDifferOnlyInOwnership(w: World, p: Ptr)
    ensures NewNode(w, p) != RefNode(w, p)
    ensures NewNode(w, p).(owned := false) == RefNode(w, p)
  {
  }

  /** `World::new`, given what `lilv_world_new` returned. */
  function WorldNew(raw: Ptr): (r: Option<World>)
    ensures r.None? <==> raw == Null
    ensures r.Some? ==> raw == At(r.value.native)
  {
    match raw
    case Null => None
    case At(a) => Some(World(a))
  }

  /** The mapping shared by `unload_bundle` and `unload_resource`: status 0 is success,
      anything else an error. */
  function StatusToResult(status: i32): (r: Result<Unit, Unit>)
    ensures r.Ok? <==> status == 0
  {
    if status == 0 then Ok(Unit) else Err(Unit)
  }

  /** `unload_bundle`, given the status `lilv_world_unload_bundle` returned. */
  function UnloadBundle(status: i32): (r: Result<Unit, Unit>)
    ensures r.Ok? <==> status == 0
  {
    StatusToResult(status)
  }

  /** `unload_resource`, given the status `lilv_world_unload_resource` returned. */
  function UnloadResource(status: i32): (r: Result<Unit, Unit>)
    ensures r.Ok? <==> status == 0
  {
    StatusToResult(status)
  }

  /** `count as usize` for an `i32`: sign extension to 64 bits, so a negative count
      wraps to a value of at least 2^63. */
  function I32ToUsize(x: i32): (r: usize)
    ensures 0 <= x ==> r == x
    ensures x < 0 ==> r == UsizeLimit + x && r >= UsizeLimit / 2
  {
    if x >= 0 then x else UsizeLimit + x
  }

  /** Reading a `usize` back as a 64-bit two's complement signed value. */
  function UsizeAsSigned(x: usize): int {
    if x < UsizeLimit / 2 then x else x - UsizeLimit
  }

  /** `load_resource`, given the status `lilv_world_load_resource` returned: -1 is the
      error; every other status, negative ones included, is reported as a count. */
  function LoadResource(status: i32): (r: Result<usize, Unit>)
    ensures r.Err? <==> status == -1
    ensures r.Ok? && status >= 0 ==> r.value == status
    ensures r.Ok? && status < 0 ==> r.value >= UsizeLimit / 2
  {
    if status == -1 then Err(Unit) else Ok(I32ToUsize(status))
  }

  /** No status is lost by the conversion: every count read back as a signed 64-bit
      value is the status itself. */
  lemma LoadResourceKeepsStatus(status: i32)
    requires status != -1
    ensures LoadResource(status).Ok?
    ensures UsizeAsSigned(LoadResource(status).value) == status
  {
  }

  /** The pointer passed for an optional node argument: null when absent. */
  function ArgPtr(o: Option<NodeRef>): (p: Ptr)
    ensures o.None? ==> p == Null
    ensures o.Some? ==> p == o.value.node
  {
    PtrOrNull(match o case None => None case Some(n) => Some(n.node))
  }

  // ---------------------------------------------------------------------------
  // The pattern arguments of `get` and `ask`

  /** The native query `get` or `ask` makes: the subject, predicate and object pattern
      pointers (`property` and `value` here), and the pointers already freed by the
      time the query reads them. */
  datatype Query = Query(subject: Ptr, property: Ptr, value: Ptr, freed: set<Ptr>)

  /** What dropping a pattern argument frees: an owned node's pointer; an absent or
      borrowed node frees nothing. */
  function Released(o: Option<NodeRef>): (r: set<Ptr>)
    ensures r == {} <==> o.None? || !o.value.owned
    ensures r != {} ==> r == {o.value.node}
  {
    if o.Some? && o.value.owned then {o.value.node} else {}
  }

  /** The argument is an owned node with a real pointer. */
  predicate OwnsLive(o: Option<NodeRef>) {
    o.Some? && o.value.owned && o.value.node != Null
  }

  /** The query reads memory that is already freed: one of the non-null pointers it
      passes has been released. */
  predicate ReadsFreed(q: Query) {
    || (q.subject != Null && q.subject in q.freed)
    || (q.property != Null && q.property in q.freed)
    || (q.value != Null && q.value in q.freed)
  }

  /** `get` and `ask` as written: each pattern node is taken by value and moved into
      the `map_or` closure, which returns the node's pointer and drops the node, so
      an owned node is freed before the native query reads the pointer. */
  function QueryAsWritten(s: Option<NodeRef>, p: Option<NodeRef>, o: Option<NodeRef>): (q: Query)
    ensures q.subject == ArgPtr(s) && q.property == ArgPtr(p) && q.value == ArgPtr(o)
    ensures forall x :: x in q.freed <==>
              || (s.Some? && s.value.owned && x == s.value.node)
              || (p.Some? && p.value.owned && x == p.value.node)
              || (o.Some? && o.value.owned && x == o.value.node)
  {
    Query(ArgPtr(s), ArgPtr(p), ArgPtr(o), Released(s) + Released(p) + Released(o))
  }

  /** As written, the query reads freed memory exactly when some pattern argument is
      an owned node with a real pointer. */
  lemma AsWrittenReadsFreedIff(s: Option<NodeRef>, p: Option<NodeRef>, o: Option<NodeRef>)
    ensures ReadsFreed(QueryAsWritten(s, p, o)) <==> OwnsLive(s) || OwnsLive(p) || OwnsLive(o)
  {
  }

  /** A node fresh from `new_uri` (an owned node) used as the subject is freed before
      `lilv_world_get` or `lilv_world_ask` reads it. */
  lemma OwnedPatternReadAfterFree(w: World, raw: Ptr, p: Option<NodeRef>, o: Option<NodeRef>)
    requires raw != Null
    ensures ReadsFreed(QueryAsWritten(Some(NewNode(w, raw)), p, o))
  {
  }

  /** The pattern nodes borrowed for the call (`Option<&Node>`), so each is dropped by
      its owner only after the query: the same pointers, nothing freed. */
  function QueryBorrowed(s: Option<NodeRef>, p: Option<NodeRef>, o: Option<NodeRef>): (q: Query)
    ensures q.subject == ArgPtr(s) && q.property == ArgPtr(p) && q.value == ArgPtr(o)
    ensures q.freed == {}
  {
    Query(ArgPtr(s), ArgPtr(p), ArgPtr(o), {})
  }

  /** With borrowed patterns the query passes what the as-written query passes and
      never reads freed memory, whatever the arguments own. */
  lemma BorrowedQueryReadsLiveNodes(s: Option<NodeRef>, p: Option<NodeRef>, o: Option<NodeRef>)
    ensures !ReadsFreed(QueryBorrowed(s, p, o))
    ensures QueryBorrowed(s, p, o).(freed := {}) == QueryAsWritten(s, p, o).(freed := {})
  {
  }

  /** `get` with borrowed patterns: absent pattern fields are passed as null; a null
      answer is `None`, any other a node borrowed from the world. */
  function Get(w: World, s: Option<NodeRef>, p: Option<NodeRef>, o: Option<NodeRef>,
               native: (Ptr, Ptr, Ptr) -> Ptr): (r: Option<NodeRef>)
    ensures var raw := native(ArgPtr(s), ArgPtr(p), ArgPtr(o));
            && (r.None? <==> raw == Null)
            && (r.Some? ==> r.value == RefNode(w, raw))
  {
    var q := QueryBorrowed(s, p, o);
    var raw := native(q.subject, q.property, q.value);
    if raw == Null then None else Some(RefNode(w, raw))
  }

  /** `ask` with borrowed patterns: true exactly when the native answer byte is
      non-zero. */
  function Ask(s: Option<NodeRef>, p: Option<NodeRef>, o: Option<NodeRef>,
               native: (Ptr, Ptr, Ptr) -> u8): (r: bool)
    ensures r <==> native(ArgPtr(s), ArgPtr(p), ArgPtr(o)) != 0
  {
    var q := QueryBorrowed(s, p, o);
    native(q.subject, q.property, q.value) != 0
  }

  /** `get_symbol`, given what `lilv_world_get_symbol` returned: `None` on null, else a
      node the caller owns. */
  function GetSymbol(w: World, raw: Ptr): (r: Option<NodeRef>)
    ensures r.None? <==> raw == Null
    ensures r.Some? ==> r.value == NewNode(w, raw)
  {
    if raw == Null then None else Some(NewNode(w, raw))
  }

  /** The byte `new_bool` hands to `lilv_new_bool`. */
  function BoolByte(b: bool): (r: u8)
    ensures r <= 1
  {
    if b then 1 else 0
  }

  /** The byte encodes the flag faithfully: C reads it back as `b` (non-zero is true). */
  lemma BoolByteRoundTrip(b: bool)
    ensures (BoolByte(b) != 0) == b
    ensures BoolByte(b) == 1 <==> b
  {
  }

  /** `new_bool`, given the native constructor: an owned node built from 1 or 0. */
  function NewBool(w: World, b: bool, native: u8 -> Ptr): (n: NodeRef)
    ensures n.owned && n.world == w
    ensures n.node == native(if b then 1 else 0)
  {
    NewNode(w, native(BoolByte(b)))
  }
}
