/** The plugin wrapper of src/plugin.rs: argument checking for
    `get_port_ranges_float`, and the wrapping of native lookup results into `Option`s,
    ports, nodes and node collections with the right ownership. Native results are
    inputs, as in `Registry`. */
module PluginQuery {
  import opened Common
  import opened Registry
  import Lifecycle

  /** `Plugin { plugin, world }`. */
  datatype Plugin = Plugin(plugin: Ptr, world: World)

  /** `Port { port, plugin }`. */
  datatype Port = Port(port: Ptr, plugin: Plugin)

  /** A caller-supplied `&mut [f32]`: where it starts and how many values it holds. */
  datatype Slice = Slice(base: nat, len: nat)

  /** The three pointers handed to `lilv_plugin_get_port_ranges_float`. */
  datatype RangeFill = RangeFill(min: Ptr, max: Ptr, def: Ptr)

  function SlicePtr(s: Option<Slice>): (p: Ptr)
    ensures s.None? <==> p == Null
    ensures s.Some? ==> p == At(s.value.base)
  {
    match s
    case None => Null
    case Some(sl) => At(sl.base)
  }

  /** `get_port_ranges_float`, given the plugin's port count: the size check, then the
      native fill with null for each absent array. */
  function GetPortRangesFloat(numPorts: u32, min: Option<Slice>, max: Option<Slice>, def: Option<Slice>)
    : (r: Result<RangeFill, Unit>)
    ensures r.Ok? ==> r.value == RangeFill(SlicePtr(min), SlicePtr(max), SlicePtr(def))
  {
    var (equalSizes, size) :=
      match (min, max, def)
      case (Some(a), Some(b), None) => (a.len == b.len, a.len)
      case (Some(a), None, Some(b)) => (a.len == b.len, a.len)
      case (None, Some(a), Some(b)) => (a.len == b.len, a.len)
      case (Some(a), Some(b), Some(c)) => (a.len == b.len && b.len == c.len, a.len)
      case _ => (true, numPorts as int);
    if !equalSizes || size != numPorts then Err(Unit)
    else Ok(RangeFill(SlicePtr(min), SlicePtr(max), SlicePtr(def)))
  }

  function Supplied(min: Option<Slice>, max: Option<Slice>, def: Option<Slice>): seq<Slice> {
    (if min.Some? then [min.value] else [])
    + (if max.Some? then [max.value] else [])
    + (if def.Some? then [def.value] else [])
  }

  /** The rule the size check implements, stated independently: with at most one array
      supplied nothing is checked; with two or three, every supplied array must hold
      exactly one value per port. */
  predicate RangesAcceptable(numPorts: u32, min: Option<Slice>, max: Option<Slice>, def: Option<Slice>) {
    var supplied := Supplied(min, max, def);
    |supplied| <= 1 || forall i :: 0 <= i < |supplied| ==> supplied[i].len == numPorts
  }

  /** `get_port_ranges_float` succeeds exactly when the rule above holds. In particular a
      single array of the wrong length is accepted, and the native call then writes
      one value per port into it. */
  lemma PortRangesDecision(numPorts: u32, min: Option<Slice>, max: Option<Slice>, def: Option<Slice>)
    ensures GetPortRangesFloat(numPorts, min, max, def).Ok? <==> RangesAcceptable(numPorts, min, max, def)
  {
    var supplied := Supplied(min, max, def);
    if min.Some? && max.Some? && def.Some? {
      assert supplied == [min.value, max.value, def.value];
      assert supplied[0] == min.value && supplied[1] == max.value && supplied[2] == def.value;
    } else if min.Some? && max.Some? {
      assert supplied == [min.value, max.value];
      assert supplied[0] == min.value && supplied[1] == max.value;
    } else if min.Some? && def.Some? {
      assert supplied == [min.value, def.value];
      assert supplied[0] == min.value && supplied[1] == def.value;
    } else if max.Some? && def.Some? {
      assert supplied == [max.value, def.value];
      assert supplied[0] == max.value && supplied[1] == def.value;
    } else {
      assert |supplied| <= 1;
    }
  }

  /** A lone array is never checked, whatever its length. */
  lemma SingleArrayUnchecked(numPorts: u32, s: Slice)
    ensures GetPortRangesFloat(numPorts, Some(s), None, None) == Ok(RangeFill(At(s.base), Null, Null))
    ensures GetPortRangesFloat(numPorts, None, Some(s), None) == Ok(RangeFill(Null, At(s.base), Null))
    ensures GetPortRangesFloat(numPorts, None, None, Some(s)) == Ok(RangeFill(Null, Null, At(s.base)))
  {
  }

  /** The native fill writes one value per port into every array it is given, so a
      lone array shorter than the port count is written past its end: a single empty
      array is accepted for a plugin with one port. */
  lemma ShortSingleArrayAccepted(b: nat)
    ensures GetPortRangesFloat(1, Some(Slice(b, 0)), None, None).Ok?
  {
  }

  /** `get_port_ranges_float` with the check the native fill needs: every supplied
      array, however many there are, must hold one value per port. */
  function GetPortRangesFloatChecked(numPorts: u32, min: Option<Slice>, max: Option<Slice>, def: Option<Slice>)
    : (r: Result<RangeFill, Unit>)
    ensures r.Ok? ==> r.value == RangeFill(SlicePtr(min), SlicePtr(max), SlicePtr(def))
  {
    if (min.Some? ==> min.value.len == numPorts)
       && (max.Some? ==> max.value.len == numPorts)
       && (def.Some? ==> def.value.len == numPorts)
    then Ok(RangeFill(SlicePtr(min), SlicePtr(max), SlicePtr(def)))
    else Err(Unit)
  }

  /** The corrected check accepts exactly when every supplied array fits the fill, it
      agrees with the original whenever two or more arrays are supplied, and it refuses
      the short lone array the original lets through. */
  lemma CheckedRangesDecision(numPorts: u32, min: Option<Slice>, max: Option<Slice>, def: Option<Slice>)
    ensures var supplied := Supplied(min, max, def);
            GetPortRangesFloatChecked(numPorts, min, max, def).Ok?
            <==> forall i :: 0 <= i < |supplied| ==> supplied[i].len == numPorts
    ensures |Supplied(min, max, def)| >= 2 ==>
              GetPortRangesFloatChecked(numPorts, min, max, def) == GetPortRangesFloat(numPorts, min, max, def)
    ensures GetPortRangesFloatChecked(1, Some(Slice(0, 0)), None, None).Err?
  {
    var supplied := Supplied(min, max, def);
    PortRangesDecision(numPorts, min, max, def);
    if min.Some? {
      assert supplied[0] == min.value;
    }
    if max.Some? {
      assert supplied[if min.Some? then 1 else 0] == max.value;
    }
    if def.Some? {
      assert supplied[|supplied| - 1] == def.value;
    }
  }

  /** The shared shape of the three port lookups: `None` on a null pointer, otherwise a
      port tied to this plugin. */
  function WrapPort(pl: Plugin, raw: Ptr): (r: Option<Port>)
    ensures r.None? <==> raw == Null
    ensures r.Some? ==> r.value == Port(raw, pl)
  {
    if raw == Null then None else Some(Port(raw, pl))
  }

  /** `get_port_by_index`, given `lilv_plugin_get_port_by_index`. */
  function GetPortByIndex(pl: Plugin, index: u32, native: u32 -> Ptr): (r: Option<Port>)
    ensures r.None? <==> native(index) == Null
    ensures r.Some? ==> r.value.port == native(index) && r.value.plugin == pl
  {
    WrapPort(pl, native(index))
  }

  /** `get_port_by_symbol`, given `lilv_plugin_get_port_by_symbol`. */
  function GetPortBySymbol(pl: Plugin, symbol: NodeRef, native: Ptr -> Ptr): (r: Option<Port>)
    ensures r.None? <==> native(symbol.node) == Null
    ensures r.Some? ==> r.value.port == native(symbol.node) && r.value.plugin == pl
  {
    WrapPort(pl, native(symbol.node))
  }

  /** `get_port_by_designation`: an absent port class is passed as null. */
  function GetPortByDesignation(pl: Plugin, portClass: Option<NodeRef>, designation: NodeRef,
                                native: (Ptr, Ptr) -> Ptr): (r: Option<Port>)
    ensures portClass.None? ==> (r.None? <==> native(Null, designation.node) == Null)
    ensures portClass.Some? ==> (r.None? <==> native(portClass.value.node, designation.node) == Null)
    ensures r.Some? ==> r.value.plugin == pl && r.value.port == native(ArgPtr(portClass), designation.node)
  {
    WrapPort(pl, native(ArgPtr(portClass), designation.node))
  }

  /** The node-returning getters that may find nothing (`get_project`,
      `get_author_name`, `get_author_email`, `get_author_homepage`): `None` on null,
      else an owned node. */
  function GetOptionalNode(pl: Plugin, raw: Ptr): (r: Option<NodeRef>)
    ensures r.None? <==> raw == Null
    ensures r.Some? ==> r.value.owned && r.value.node == raw && r.value.world == pl.world
  {
    if raw == Null then None else Some(NewNode(pl.world, raw))
  }

  /** The getters that always return a node: the URIs are borrowed from the plugin,
      the name is a fresh node the caller owns. */
  datatype NodeQuery = UriQuery | BundleUriQuery | LibraryUriQuery | NameQuery

  function GetNode(pl: Plugin, q: NodeQuery, raw: Ptr): (n: NodeRef)
    ensures n.owned <==> q == NameQuery
    ensures n.node == raw && n.world == pl.world
  {
    if q == NameQuery then NewNode(pl.world, raw) else RefNode(pl.world, raw)
  }

  /** The collection getters. */
  datatype NodesQuery =
    | DataUris | SupportedFeatures | RequiredFeatures | OptionalFeatures | ExtensionData | Related

  /** Wrap a native collection: only the data URIs are borrowed from the plugin; every
      other collection is owned and freed by the wrapper. */
  function GetNodes(pl: Plugin, q: NodesQuery, raw: Ptr): (c: Nodes)
    ensures c.owned <==> q != DataUris
    ensures c.nodes == raw && c.world == pl.world
  {
    Nodes(raw, pl.world, q != DataUris)
  }

  /** `get_related`: an absent type is passed as null; the result is owned. */
  function GetRelated(pl: Plugin, kind: Option<NodeRef>, native: Ptr -> Ptr): (c: Nodes)
    ensures c.owned && c.world == pl.world
    ensures kind.None? ==> c.nodes == native(Null)
    ensures kind.Some? ==> c.nodes == native(kind.value.node)
  {
    GetNodes(pl, Related, native(ArgPtr(kind)))
  }

  /** `get_value`, given `lilv_plugin_get_value`: `None` on null, else an owned
      collection. */
  function GetValue(pl: Plugin, raw: Ptr): (r: Option<Nodes>)
    ensures r.None? <==> raw == Null
    ensures r.Some? ==> r.value.owned && r.value.nodes == raw && r.value.world == pl.world
  {
    if raw == Null then None else Some(Nodes(raw, pl.world, true))
  }

  /** `instantiate`, given what `lilv_plugin_instantiate` returned (`None` standing for
      null): an instance exactly when the plugin was constructed. */
  function Instantiate(pl: Plugin, created: Option<Lifecycle.InstanceImpl>): (r: Option<Lifecycle.Instance>)
    ensures r.None? <==> created.None?
    ensures r.Some? ==> r.value.inner == created.value
  {
    match created
    case None => None
    case Some(i) => Some(Lifecycle.Instance(i))
  }
}
