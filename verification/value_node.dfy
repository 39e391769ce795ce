/** The value node of src/node.rs: a handle to a native lilv node, the typed accessors
    that only answer for the matching kind, duplication, and release on drop. The
    native node is modelled by its kind and its string form (what `lilv_node_as_string`,
    `lilv_node_as_uri` and `lilv_node_as_blank` return, as bytes). */
module ValueNode {
  import opened Common
  import opened Utf8

  /** An IEEE-754 single by its bit pattern; the model does no arithmetic on it. */
  datatype F32 = F32(bits: u32)

  const Zero: F32 := F32(0)

  /** What kind of value the native node holds, with the payload of numeric and
      boolean literals. `OtherLiteral` is a literal of any other datatype. */
  datatype Kind =
    | UriKind
    | BlankKind
    | StringKind
    | IntKind(i: i32)
    | FloatKind(f: F32)
    | BoolKind(b: bool)
    | OtherLiteral

  datatype Value = Value(kind: Kind, text: Bytes)

  /** `Arc<Life>`: what keeps the world alive while the node exists. */
  datatype Life = Life(id: nat)

  /** `Node { inner, borrowed, world }`; `inner` is the native address, never null. */
  datatype Node = Node(inner: nat, value: Value, borrowed: bool, world: Life)

  /** `Node::new`: a node this handle owns. */
  function New(inner: nat, value: Value, world: Life): (n: Node)
    ensures !n.borrowed && n.inner == inner && n.value == value && n.world == world
  {
    Node(inner, value, false, world)
  }

  /** `Node::new_borrowed`: a node whose value belongs to someone else. */
  function NewBorrowed(inner: nat, value: Value, world: Life): (n: Node)
    ensures n.borrowed && n.inner == inner && n.value == value && n.world == world
  {
    Node(inner, value, true, world)
  }

  predicate IsUri(n: Node) { n.value.kind.UriKind? }
  predicate IsBlank(n: Node) { n.value.kind.BlankKind? }
  predicate IsInt(n: Node) { n.value.kind.IntKind? }
  predicate IsFloat(n: Node) { n.value.kind.FloatKind? }
  predicate IsBool(n: Node) { n.value.kind.BoolKind? }

  /** `as_uri`: the URI text for a URI node whose text is valid UTF-8. */
  function AsUri(n: Node): (r: Option<Bytes>)
    ensures r.Some? <==> IsUri(n) && Valid(n.value.text)
    ensures r.Some? ==> r.value == n.value.text
  {
    if IsUri(n) then ToStr(n.value.text) else None
  }

  /** `as_blank`: the identifier of a blank node whose text is valid UTF-8. */
  function AsBlank(n: Node): (r: Option<Bytes>)
    ensures r.Some? <==> IsBlank(n) && Valid(n.value.text)
    ensures r.Some? ==> r.value == n.value.text
  {
    if IsBlank(n) then ToStr(n.value.text) else None
  }

  /** `as_str`: the string form of any node, with no kind check; only invalid UTF-8
      yields `None`. */
  function AsStr(n: Node): (r: Option<Bytes>)
    ensures r.Some? <==> Valid(n.value.text)
    ensures r.Some? ==> r.value == n.value.text
  {
    ToStr(n.value.text)
  }

  /** `as_float`: the float payload exactly when `is_float` holds. */
  function AsFloat(n: Node): (r: Option<F32>)
    ensures r.None? <==> !IsFloat(n)
    ensures r.Some? ==> n.value.kind == FloatKind(r.value)
  {
    if IsFloat(n) then Some(n.value.kind.f) else None
  }

  /** `as_int`: the integer payload exactly when `is_int` holds. */
  function AsInt(n: Node): (r: Option<i32>)
    ensures r.None? <==> !IsInt(n)
    ensures r.Some? ==> n.value.kind == IntKind(r.value)
  {
    if IsInt(n) then Some(n.value.kind.i) else None
  }

  /** `as_bool`: the boolean payload exactly when `is_bool` holds. */
  function AsBool(n: Node): (r: Option<bool>)
    ensures r.None? <==> !IsBool(n)
    ensures r.Some? ==> n.value.kind == BoolKind(r.value)
  {
    if IsBool(n) then Some(n.value.kind.b) else None
  }

  /** Asking for the wrong kind is a normal outcome, never an error: at most one typed
      accessor answers for any node. */
  lemma TypedAccessorsExclusive(n: Node)
    ensures (if AsUri(n).Some? then 1 else 0) + (if AsBlank(n).Some? then 1 else 0)
            + (if AsFloat(n).Some? then 1 else 0) + (if AsInt(n).Some? then 1 else 0)
            + (if AsBool(n).Some? then 1 else 0) <= 1
  {
  }

  /** A value stored in a node comes back unchanged through the matching accessor. */
  lemma TypedAccessorsRoundTrip(inner: nat, k: Kind, text: Bytes, w: Life, borrowed: bool)
    ensures var n := Node(inner, Value(k, text), borrowed, w);
            && (k.IntKind? ==> AsInt(n) == Some(k.i) && AsFloat(n).None? && AsBool(n).None?)
            && (k.FloatKind? ==> AsFloat(n) == Some(k.f) && AsInt(n).None? && AsBool(n).None?)
            && (k.BoolKind? ==> AsBool(n) == Some(k.b) && AsInt(n).None? && AsFloat(n).None?)
            && (k.UriKind? && Valid(text) ==> AsUri(n) == Some(text) && AsBlank(n).None?)
  {
  }

  /** On a URI node `as_str` and `as_uri` agree; on any other node `as_str` still
      answers while `as_uri` does not. */
  lemma AsStrIgnoresKind(n: Node)
    requires Valid(n.value.text)
    ensures IsUri(n) ==> AsStr(n) == AsUri(n)
    ensures !IsUri(n) ==> AsStr(n).Some? && AsUri(n).None?
  {
  }

  /** `Clone for Node`: `lilv_node_duplicate` makes a copy at a new address
      (`copy`); the clone always owns it and shares the original's world. */
  function Clone(n: Node, copy: nat): (c: Node)
    ensures !c.borrowed && c.world == n.world && c.value == n.value && c.inner == copy
  {
    Node(copy, n.value, false, n.world)
  }

  /** `Drop for Node`: the native address freed, if any. */
  function Drop(n: Node): (freed: Option<nat>)
    ensures freed.Some? <==> !n.borrowed
    ensures freed.Some? ==> freed.value == n.inner
  {
    if n.borrowed then None else Some(n.inner)
  }

  /** Every handle frees at most its own value: a borrowed node and its clone together
      free exactly one native value, the copy; an owned node and its clone free two,
      each its own. */
  lemma CloneThenDropFreesEachOnce(n: Node, copy: nat)
    ensures Drop(Clone(n, copy)) == Some(copy)
    ensures n.borrowed ==> Drop(n).None?
    ensures !n.borrowed ==> Drop(n) == Some(n.inner)
  {
  }

  // ---------------------------------------------------------------------------
  // get_path

  /** What `lilv_node_get_path` hands back: the path (`None` for null) and, through its
      out-parameter, the hostname, which stays null when the URI names no host. */
  datatype NativePath = NativePath(path: Option<Bytes>, hostname: Option<Bytes>)

  /** Reading a C string through a null pointer. */
  datatype Fault = NullDereference

  /** `get_path` as written: a null path is `None`; otherwise both strings are read
      with `CStr::from_ptr` and converted lossily, the hostname without a null check. */
  function GetPathAsWritten(raw: NativePath): (r: Result<Option<(Bytes, Bytes)>, Fault>)
    ensures raw.path.None? ==> r == Ok(None)
    ensures raw.path.Some? && raw.hostname.None? ==> r == Err(NullDereference)
    ensures raw.path.Some? && raw.hostname.Some? ==> r.Ok? && r.value.Some?
  {
    match raw.path
    case None => Ok(None)
    case Some(path) =>
      match raw.hostname
      case None => Err(NullDereference)
      case Some(host) => Ok(Some((Lossy(path), Lossy(host))))
  }

  /** A file URI with an empty authority (`file:///tmp/x`) has a path but no host: the
      as-written accessor reads through the null hostname. */
  lemma GetPathHostlessUriFaults(path: Bytes)
    ensures GetPathAsWritten(NativePath(Some(path), None)) == Err(NullDereference)
  {
  }

  /** `get_path` with the hostname checked for null, the way `file_uri_parse` in
      src/lib.rs does: never faults, `None` exactly when there is no path, and
      well-formed text passes through unchanged. */
  function GetPath(raw: NativePath): (r: Option<(Bytes, Option<Bytes>)>)
    ensures r.None? <==> raw.path.None?
    ensures r.Some? ==> Valid(r.value.0) && (r.value.1.Some? <==> raw.hostname.Some?)
    ensures r.Some? && r.value.1.Some? ==> Valid(r.value.1.value)
    ensures r.Some? && Valid(raw.path.value) ==> r.value.0 == raw.path.value
    ensures r.Some? && raw.hostname.Some? && Valid(raw.hostname.value) ==> r.value.1 == raw.hostname
  {
    match raw.path
    case None => None
    case Some(path) =>
      LossyIsValid(path);
      LossyUnchangedIffValid(path);
      match raw.hostname
      case None => Some((Lossy(path), None))
      case Some(host) =>
        LossyIsValid(host);
        LossyUnchangedIffValid(host);
        Some((Lossy(path), Some(Lossy(host))))
  }

  /** Wherever the as-written accessor succeeds, the corrected one returns the same
      strings. */
  lemma GetPathAgreesWhenHostPresent(raw: NativePath)
    requires GetPathAsWritten(raw).Ok?
    ensures GetPathAsWritten(raw).value.None? <==> GetPath(raw).None?
    ensures GetPathAsWritten(raw).value.Some? ==>
              GetPath(raw).value == (GetPathAsWritten(raw).value.value.0, Some(GetPathAsWritten(raw).value.value.1))
  {
  }
}
