# lilv-rs in Dafny

A model of the Rust-side logic of lilv-rs, the Rust binding to the lilv LV2 host
library. Nearly every method of the binding hands a pointer to a C function whose
code is outside this model. What the binding decides for itself is modelled here, with
its properties proved:

- **URID map** (`UridMap`, src/feature.rs). This is the LV2 URID "map" feature: a table
  that gives each URI a `u32` id from a counter that starts at 1. It also covers the
  C trampoline that reaches the table through an `LV2_URID_Map` handle, and the
  conversion of a raw `LV2_Feature` back into a map, which can fail. Native tables
  live in a store keyed by the address of their box, so a native feature and every
  feature recovered from its `LV2_Feature` share one table and one counter.
- **Cursor iterator** (`CursorIter`, src/collection.rs). This adapter turns a native
  collection's begin / is-end / next / get protocol into a Rust `Iterator`.
- **Instance lifecycle** (`Lifecycle`, src/instance.rs). It chooses which plugin
  entry points to call, with which arguments. Each call is recorded as an event in a
  trace.
- **Plugin queries** (`PluginQuery`, src/plugin.rs). This covers the argument check of
  `get_port_ranges_float`, turning null results into `Option`, and whether a returned
  node or collection is owned or borrowed.
- **World** (`Registry`, src/world.rs). This covers mapping status codes to `Result`,
  the byte that encodes a bool, `None` for null, and whether a node is owned or
  borrowed. It also covers which pattern nodes `get` and `ask` have released by the
  time the native query reads them.
- **Value nodes** (`ValueNode`, src/node.rs). Each typed accessor answers only for
  the matching kind. The module also covers UTF-8 checking, duplication, and release
  on drop.
- **JACK host example** (`JackHost`, examples/lv2jack.rs). It sorts ports into roles
  by priority, pairs outputs with buffers, and does the arithmetic for the atom
  sequence and atom event.

`Common` holds the fixed-width integer types, raw pointers, `Option` and `Result`.
`Utf8` models `CStr::to_str` and `CStr::to_string_lossy`. Validity follows the
well-formed byte sequences of the Unicode Standard, section 3.9, Table 3-7. Lossy
conversion replaces each maximal ill-formed subpart with U+FFFD.

A C call's result is an input to the Dafny function: the pointer, status code or byte
it returned. When the arguments the binding passes matter, for example null for an
absent optional node, the C function is instead a function-typed parameter. The
reader/writer locks and the atomic counter are modelled sequentially. Floats are opaque
bit patterns.

LV2 asks a host to call `deactivate` before `cleanup` on an instance it has
activated. `Drop for Instance` (src/instance.rs:63-70) calls only `cleanup`, whatever
state the instance is in. The model follows the code, and
`Lifecycle.SessionCleansUpOnce` proves that the drop adds no `deactivate` call.

## Model

| member | source | states |
|---|---|---|
| UridMap.WrappingInc | src/feature.rs:175-177 | The counter's `fetch_add(1)` stores the successor modulo 2^32, so the maximum wraps to 0 |
| UridMap.NewNativeMap | src/feature.rs:151-158 | A new table is empty, its counter is 1, and it satisfies the table invariant |
| UridMap.MapUri | src/feature.rs:165-181 | A known URI returns its stored id and changes nothing. An unknown URI gets the counter's current value, the counter steps on, and every earlier entry keeps its id |
| UridMap.MapLocked | src/feature.rs:169-180 | Under the write lock the URI is looked up again before the counter is bumped and the URI inserted |
| UridMap.RecheckFindsNothing | src/feature.rs:166-174 | Run sequentially, the write-lock re-check never finds the URI: a read miss always inserts with the old counter value |
| UridMap.MapPreservesValid | src/feature.rs:175-180 | Registering a URI keeps ids in [1, counter) and pairwise distinct while the counter has room. Every id handed out is at least 1 |
| UridMap.MapTwiceSameId | src/feature.rs:165-168 | Mapping the same URI twice returns the same id, and the second call leaves the table unchanged |
| UridMap.MapAllFacts | src/feature.rs:165-181 | Over any run of calls the table only grows, every URI ends up under the id it was given, and the invariant holds while the counter plus the number of calls in the run stays within 2^32-1 |
| UridMap.MapAllIdsUnique | src/feature.rs:175-180 | Two calls in such a run return equal ids exactly when they map the same URI, and no id is 0 |
| UridMap.FreshMapIssuesFromOne | src/feature.rs:188-202 | A fresh map issues 1, then 2 for a different URI, then 1 again for the first URI |
| UridMap.CounterWrapReissuesIds | src/feature.rs:175-177 | Once 2^32-1 ids are issued, the counter wraps: the next URI gets 0 and the counter returns to 1 |
| UridMap.Trampoline | src/feature.rs:64-78 | A null handle yields 0 and changes no table; otherwise the call is `map` on the table the handle points at, and only that table changes |
| UridMap.Default | src/feature.rs:46-61 | The default feature is native and owns a new boxed table that is empty, valid and counts from 1; every other table is untouched |
| UridMap.IsNative | src/feature.rs:91-93 | True exactly for a feature backed by its own table, and such a feature always reaches a table |
| UridMap.AsLv2Feature | src/feature.rs:84-87 | The exposed `LV2_Feature` carries the URID map URI and non-null data. For a native feature the data's handle points at the feature's own boxed table; for an abstract one it is the borrowed record |
| UridMap.FromRaw | src/feature.rs:105-116 | Wrapping a borrowed `LV2_URID_Map` gives a non-native feature whose `LV2_Feature` points at that record |
| UridMap.TryFrom | src/feature.rs:129-142 | A wrong URI gives FeatureIsNotUridMap. The right URI with null data gives FeatureDataIsNull. Otherwise the result is Ok and wraps the data |
| UridMap.FeatureMap | src/feature.rs:17-26 | `map` through either backing is `map` on the feature's target table, and the updated table is what every feature sharing it sees next; a null handle gives 0 and changes nothing |
| UridMap.AbstractAgreesWithNative | src/feature.rs:204-218 | A feature recovered from a native feature's `LV2_Feature` is not native, reaches the same table, and every map through it gives the same id and the same tables as through the native feature |
| UridMap.MapVia | src/feature.rs:100-102 | A run of maps through any live features returns one id per call and keeps the same set of tables |
| UridMap.SharedTableMapsAsOne | src/feature.rs:46-61 | Maps interleaved between features that share one table behave as a single run on that table, and no other table changes |
| UridMap.InterleavedIdsUnique | src/feature.rs:161-163 | Across a native feature and the features recovered from it, two calls return the same id exactly when they map the same URI, and no id is 0, as long as the counter plus the number of calls stays within 2^32-1 |
| UridMap.RecoveredFeatureSharesCounter | src/feature.rs:204-218 | On a new default feature, a URI mapped through the recovered feature gets 1 and a different URI mapped next through the native feature gets 2 |
| UridMap.FeatureMapStable | src/feature.rs:188-194 | With either backing, mapping a URI twice gives the same id |
| Utf8.ToStr | src/node.rs:98-104 | `to_str` succeeds exactly on well-formed UTF-8 and then returns the bytes unchanged |
| Utf8.Lossy | src/node.rs:112-113 | `to_string_lossy` returns well-formed text unchanged, and its output is at least as long as its input and at most three times as long |
| Utf8.LossyIsValid | src/node.rs:112-113 | `to_string_lossy` always produces well-formed UTF-8 |
| Utf8.LossyUnchangedIffValid | src/node.rs:112-113 | Lossy conversion leaves its input unchanged exactly when `to_str` would accept it |
| CursorIter.New | src/collection.rs:26-34 | A new iterator starts at the null cursor |
| CursorIter.Next | src/collection.rs:43-52 | `is_end` is asked about the cursor before it moves. On true, `next` returns None and keeps the cursor. Otherwise a null cursor is moved with `begin`, any other with `next`, and the item is `get` of the moved cursor |
| CursorIter.NoBeginAfterStart | src/collection.rs:46-50 | Once the cursor is non-null, later steps never call `begin`, provided `next` never returns null |
| CursorIter.BeginAtMostOnce | src/collection.rs:46-50 | `begin` is called at most once per iterator when `begin` and `next` return non-null cursors |
| CursorIter.NullEndYieldsNothing | src/collection.rs:44-45 | If `is_end` holds for the null cursor, the iterator yields nothing and never calls `begin` |
| CursorIter.ListYieldsOneExtra | src/collection.rs:43-52 | Over an index-walked sequence, the adapter yields every element and then one read at the past-the-end cursor |
| CursorIter.NextChecked | src/collection.rs:43-52 | Corrected step: each item is `get` of a cursor that `is_end` has rejected, and an iterator at the end stays there |
| CursorIter.ListYieldsExactly | src/collection.rs:43-52 | The corrected adapter yields exactly the sequence's elements, in order, whatever `is_end` answers for null |
| Lifecycle.ImplConnectPort | src/instance.rs:12-14 | The plugin receives one `connect_port` call carrying the index and the pointer unchanged |
| Lifecycle.ImplActivate | src/instance.rs:17-21 | The activate hook is called once if the descriptor has one. Otherwise nothing is called |
| Lifecycle.ImplRun | src/instance.rs:24-26 | The plugin receives one `run` call with the sample count unchanged |
| Lifecycle.ImplDeactivate | src/instance.rs:29-33 | The deactivate hook is called once if the descriptor has one. Otherwise nothing is called |
| Lifecycle.Perform | src/instance.rs:41-61 | Each public `Instance` method is exactly the matching `InstanceImpl` call |
| Lifecycle.Drop | src/instance.rs:63-70 | Dropping appends a single `cleanup` call and nothing else |
| Lifecycle.PerformAllFacts | src/instance.rs:41-61 | Across any run of calls the wrapper adds no cleanup. It adds one deactivate call per `deactivate` if the hook exists, and forwards the `run` sample counts in order |
| Lifecycle.SessionCleansUpOnce | src/instance.rs:63-70 | Any session ends with exactly one `cleanup`, as the last call. Dropping adds no `deactivate`, even when the instance is still active |
| Lifecycle.SessionForwardsRuns | src/instance.rs:53-55 | Every `run` reaches the plugin with its sample count, in order |
| Lifecycle.RunBeforeActivateIsForwarded | src/instance.rs:41-61 | Nothing gates `run`: on a fresh instance it reaches the plugin before any `activate` |
| PluginQuery.SlicePtr | src/plugin.rs:293-295 | An absent array is passed as null and a present one as its base address |
| PluginQuery.GetPortRangesFloat | src/plugin.rs:266-300 | On success the native fill receives null for exactly the absent arrays |
| PluginQuery.PortRangesDecision | src/plugin.rs:281-291 | Ok exactly when at most one array is supplied, or every supplied array has one value per port |
| PluginQuery.SingleArrayUnchecked | src/plugin.rs:286-291 | A lone array is accepted whatever its length |
| PluginQuery.ShortSingleArrayAccepted | src/plugin.rs:286-297 | An empty lone array is accepted for a one-port plugin, and the fill then writes past it |
| PluginQuery.GetPortRangesFloatChecked | src/plugin.rs:281-299 | Corrected check: the fill is reached only when each supplied array fits it |
| PluginQuery.CheckedRangesDecision | src/plugin.rs:281-291 | The corrected check accepts exactly when every supplied array has one value per port. It agrees with the original for two or three arrays |
| PluginQuery.GetPortByIndex | src/plugin.rs:164-174 | None exactly when the native port is null; otherwise a port of this plugin |
| PluginQuery.GetPortBySymbol | src/plugin.rs:176-189 | None exactly when the native port is null; otherwise a port of this plugin |
| PluginQuery.GetPortByDesignation | src/plugin.rs:191-211 | An absent port class is passed as null. The result is None exactly when the native port is null |
| PluginQuery.GetOptionalNode | src/plugin.rs:213-247 | Project and author getters: None on null, otherwise an owned node of the plugin's world |
| PluginQuery.GetNode | src/plugin.rs:65-92 | The URI getters borrow the node. The name is owned |
| PluginQuery.GetNodes | src/plugin.rs:75-150 | Data URIs are borrowed. The feature and extension-data collections are owned |
| PluginQuery.GetRelated | src/plugin.rs:253-264 | An absent type is passed as null. The collection is owned |
| PluginQuery.GetValue | src/plugin.rs:94-106 | None on null, otherwise an owned collection |
| PluginQuery.Instantiate | src/plugin.rs:302-313 | None exactly when the native constructor returns null |
| Registry.NewNode | src/world.rs:59-66 | The node is owned and tied to the given world |
| Registry.RefNode | src/world.rs:68-75 | The node is borrowed and tied to the given world |
| Registry.NewAndRefDifferOnlyInOwnership | src/world.rs:59-75 | The two constructors agree on everything except the ownership flag |
| Registry.WorldNew | src/world.rs:80-87 | None exactly when the native world is null |
| Registry.UnloadBundle | src/world.rs:160-166 | Ok exactly when the status is 0 |
| Registry.UnloadResource | src/world.rs:177-183 | Ok exactly when the status is 0 |
| Registry.I32ToUsize | src/world.rs:168-175 | `as usize` on an `i32` keeps non-negative values. A negative value wraps to at least 2^63 |
| Registry.LoadResource | src/world.rs:168-175 | -1 is the only error. Every other status is a count, and a negative one wraps |
| Registry.LoadResourceKeepsStatus | src/world.rs:168-175 | Reading the count back as a signed 64-bit value recovers the status |
| Registry.ArgPtr | src/world.rs:198-213 | An absent pattern node is passed as null |
| Registry.QueryAsWritten | src/world.rs:204-206 | The query passes each pattern's pointer, null when absent, and every owned pattern node has been freed before the query reads it |
| Registry.AsWrittenReadsFreedIff | src/world.rs:215-224 | As written, `get` and `ask` read freed memory exactly when some pattern argument is an owned node with a non-null pointer |
| Registry.OwnedPatternReadAfterFree | src/world.rs:198-207 | An owned node, such as a fresh `new_uri` node, passed as the subject is freed before `lilv_world_get` reads it |
| Registry.QueryBorrowed | src/world.rs:204-206 | Corrected: the same pointers are passed, and nothing is freed before the query |
| Registry.BorrowedQueryReadsLiveNodes | src/world.rs:198-224 | Corrected: the query never reads freed memory, and it passes the same pointers as the original |
| Registry.Get | src/world.rs:198-213 | None on null, otherwise a node borrowed from the world |
| Registry.Ask | src/world.rs:215-225 | True exactly when the native byte is non-zero |
| Registry.GetSymbol | src/world.rs:227-234 | None on null, otherwise an owned node |
| Registry.BoolByte | src/world.rs:261-265 | The encoded byte is 0 or 1 |
| Registry.BoolByteRoundTrip | src/world.rs:261-265 | C reads the byte back as the flag: true is 1, false is 0 |
| Registry.NewBool | src/world.rs:261-265 | An owned node built from 1 for true and 0 for false |
| ValueNode.New | src/node.rs:24-30 | The node is owned |
| ValueNode.NewBorrowed | src/node.rs:32-38 | The node is borrowed |
| ValueNode.AsUri | src/node.rs:60-70 | Some exactly for a URI node whose text is well-formed UTF-8, and then that text |
| ValueNode.AsBlank | src/node.rs:78-88 | Some exactly for a blank node whose text is well-formed UTF-8 |
| ValueNode.AsStr | src/node.rs:98-104 | Some for any node whose string form is well-formed UTF-8. There is no kind check |
| ValueNode.AsFloat | src/node.rs:126-132 | None exactly when the node is not a float, otherwise its payload |
| ValueNode.AsInt | src/node.rs:138-144 | None exactly when the node is not an int, otherwise its payload |
| ValueNode.AsBool | src/node.rs:150-156 | None exactly when the node is not a bool, otherwise its payload |
| ValueNode.TypedAccessorsExclusive | src/node.rs:60-156 | At most one typed accessor answers for any node |
| ValueNode.TypedAccessorsRoundTrip | src/node.rs:126-156 | A payload stored in a node comes back unchanged through the matching accessor, and the other accessors give None |
| ValueNode.AsStrIgnoresKind | src/node.rs:98-104 | On a URI node `as_str` agrees with `as_uri`. On other nodes it still answers where `as_uri` does not |
| ValueNode.Clone | src/node.rs:159-170 | A clone is owned, holds the same value and belongs to the same world |
| ValueNode.Drop | src/node.rs:178-184 | The native value is freed exactly when the node is not borrowed |
| ValueNode.CloneThenDropFreesEachOnce | src/node.rs:159-184 | A clone always frees its own copy. The original frees its value only if it owns it |
| ValueNode.GetPathAsWritten | src/node.rs:106-120 | A null path is None. With a path but a null hostname, the code reads through the null pointer |
| ValueNode.GetPathHostlessUriFaults | src/node.rs:112-113 | A path without a host reaches the unchecked hostname read |
| ValueNode.GetPath | src/node.rs:106-120 | Corrected: None exactly when the path is null. Both strings are well-formed, and well-formed input passes through unchanged |
| ValueNode.GetPathAgreesWhenHostPresent | src/node.rs:106-120 | Wherever the original succeeds, the corrected accessor returns the same strings |
| JackHost.Classify | examples/lv2jack.rs:73-88 | The chosen role's class pair is present in the port |
| JackHost.ClassifyPriority | examples/lv2jack.rs:73-88 | No role tried before the chosen one matches the port |
| JackHost.ClassifyIsFirstMatch | examples/lv2jack.rs:73-88 | A port's role is exactly the first matching role in the order output-audio, control-input, atom-input, unhandled |
| JackHost.DefaultValue | examples/lv2jack.rs:76-79 | The range default if it is a float, otherwise 0.0 |
| JackHost.NewSequence | examples/lv2jack.rs:129-139 | The buffer holds as many whole 16-byte elements as fit in the desired byte count |
| JackHost.Capacity | examples/lv2jack.rs:164-167 | The capacity is the element count times the element size |
| JackHost.SequenceCapacityNearDesired | examples/lv2jack.rs:129-167 | The capacity never exceeds the request and falls short by under one element. 8192 is met exactly |
| JackHost.NewEvent | examples/lv2jack.rs:192-204 | The new event has the given time and type, size 0, and 16 zero bytes of payload |
| JackHost.SetSizeAsWritten | examples/lv2jack.rs:206-210 | With debug assertions a size of 16 or more panics. Otherwise only the header size changes, to `size as u32` |
| JackHost.SetSize | examples/lv2jack.rs:206-210 | Corrected: panics only above 16, as its comment says. Otherwise only the header size changes |
| JackHost.MidiEventWith | examples/lv2jack.rs:109-113 | A built MIDI event has the MIDI type, the message time and a 16-byte payload. A longer message panics |
| JackHost.FullMessageRejectedAsWritten | examples/lv2jack.rs:109-113 | A 16-byte message panics in a debug build, although the copy would fit |
| JackHost.MidiEventHoldsMessage | examples/lv2jack.rs:109-113 | With the corrected check, an event is built exactly when the message fits. Its size is the message length and its payload starts with the message |
| JackHost.OutputsExact | examples/lv2jack.rs:72-74 | The output list holds exactly the output-audio ports, in enumeration order |
| JackHost.ControlsInOrder | examples/lv2jack.rs:75-80 | Each control entry is a control input with its default value, in port order |
| JackHost.ControlsComplete | examples/lv2jack.rs:75-80 | Every control input has an entry |
| JackHost.NewPorts | examples/lv2jack.rs:51-91 | It panics exactly when a port is unhandled or a second atom input appears, at the first such port. Otherwise it records the outputs, the controls, the unique atom input, the MIDI event URID and an 8192-byte sequence |
| JackHost.PairOutputs | examples/lv2jack.rs:101-105 | The i-th output gets the i-th buffer, or null once the buffers run out |
| JackHost.ExtraBuffersIgnored | examples/lv2jack.rs:101-105 | Surplus buffers do not change the wiring |
| JackHost.Connect | examples/lv2jack.rs:93-119 | One `connect_port` call per output, per MIDI input and per control input |
| JackHost.MidiConnection | examples/lv2jack.rs:106-107 | The MIDI input, when there is one, is connected to the sequence buffer |
| JackHost.ConnectMatchesLayout | examples/lv2jack.rs:93-119 | The k-th call is the independently stated layout: outputs with their buffers (null once they run out), then the MIDI port with the sequence buffer, then each control port with the address of its stored value |
| JackHost.ControlConnections | examples/lv2jack.rs:116-118 | The k-th control port is connected to the address of its stored value |
| JackHost.LayoutIndexOf | examples/lv2jack.rs:51-91 | Every port `Ports::new` kept has a place in the connection layout |
| JackHost.ConnectWiresEveryHandledPort | examples/lv2jack.rs:93-119 | Every port `Ports::new` kept is connected |
| JackHost.ConnectWiresOnlyPorts | examples/lv2jack.rs:93-119 | Every connection targets one of the plugin's ports |

## Left out

- Every C function behind `extern "C"` and `lilv_sys`. This includes graph queries, node equality, Turtle tokens, `is_*` on nodes, collection size, contains and merge. Their results are inputs or function parameters, because their code is not part of this model.
- The one-line pass-throughs of src/plugin.rs and src/world.rs. These are `has_feature`, `has_extension_data`, `has_latency`, `is_replaced`, `get_num_ports`, `get_latency_port_index`, `set_option`, the `load_*` methods, `get_all_plugins` and `new_uri`/`new_string`/`new_int`/`new_float`. They forward a C result unchanged. `Registry.Ask` covers the `!= 0` byte test they share.
- src/state.rs, src/port.rs, src/ui.rs, src/uis.rs, src/scale_point.rs, src/scale_points.rs, src/plugin_class.rs, src/plugin_classes.rs, src/nodes.rs, src/plugins.rs and src/lib.rs. They are raw delegation to lilv, and the null-to-`Option` pattern they repeat is modelled in `PluginQuery` and `Registry`.
- The `RwLock`s and the `AtomicU32`. The model is sequential, one call at a time, so interleavings between the read and the write lock are not covered.
- Floating point. Floats are opaque bit patterns, and the sample rate and range values take part in no arithmetic.
- The JACK client, the process closure, `LV2AtomSequence::clear`, `append_event` and the atom utilities. These are I/O and foreign code. `JackHost.Connect` models only the connections made.
- Logging (`info!`, `error!`) and the Debug printing, examples/lv2info.rs, examples/lv2ls.rs and build.rs.
- The `map` function pointer of a foreign `LV2_URID_Map`. Only this crate's trampoline is modelled, because a foreign host's function is outside this model.
- The `unwrap` in `Clone for Node` on a null duplicate (an allocation failure). `ValueNode.Clone` takes the copy's non-null address as input.
- UridMap.MapAllIdsUnique: requires the counter plus the number of calls in the run to stay within 2^32-1. This counts calls, not new URIs, so a long run that keeps mapping known URIs is excluded although it registers nothing. UridMap.InterleavedIdsUnique and UridMap.MapAllFacts carry the same bound. The source comment promises a new unique id unconditionally, but the counter wraps (`UridMap.CounterWrapReissuesIds`).
- Dangling `LV2_URID_Map` handles. Dereferencing one is undefined behaviour in the source, so `UridMap.FeatureMap` and `UridMap.Trampoline` require a handle that is null or points at a live table.
- Freeing a native feature's boxed table when the feature is dropped. The store of tables only grows.
- JackHost.NewPorts: ports are given as their class sets and range defaults. Creating the class URIs with `new_uri` and the `is_a` queries are native calls.

## Findings

| source | as written | input that shows it | evidently intended | confidence | as-written member | corrected member |
|---|---|---|---|---|---|---|
| src/collection.rs:43-52 | `is_end` is tested on the cursor before it is advanced, and `get` reads the advanced cursor unchecked | a collection whose `is_end(null)` is false yields every element and then `get` of the past-the-end cursor; one whose `is_end(null)` is true yields nothing at all | advance, then stop when the new cursor is at the end | medium, not executed | CursorIter.Next, CursorIter.ListYieldsOneExtra | CursorIter.NextChecked, CursorIter.ListYieldsExactly |
| src/plugin.rs:281-291 | with at most one array supplied, no length is checked | a one-port plugin and a single empty `min_values` slice: the call succeeds and the fill writes one value past the slice | every supplied array holds one value per port | medium, not executed | PluginQuery.GetPortRangesFloat, PluginQuery.ShortSingleArrayAccepted | PluginQuery.GetPortRangesFloatChecked, PluginQuery.CheckedRangesDecision |
| src/node.rs:106-120 | the hostname out-parameter is read with `CStr::from_ptr` without a null check | a file URI with an empty authority such as `file:///tmp/x`, for which lilv reports a path but no host | check the hostname for null, as `file_uri_parse` in src/lib.rs does | medium, not executed | ValueNode.GetPathAsWritten, ValueNode.GetPathHostlessUriFaults | ValueNode.GetPath, ValueNode.GetPathAgreesWhenHostPresent |
| src/world.rs:198-224 | `get` and `ask` take each pattern node by value; `map_or(ptr::null(), \|x\| x.node)` drops the node inside the closure, so an owned node is freed before `lilv_world_get` or `lilv_world_ask` reads its pointer | `world.ask(world.new_uri(..), None, None)`: the subject is an owned node and is released before the query | borrow the pattern nodes (`Option<&Node>`) so they outlive the native call | medium, not executed; assumes the node type frees owned nodes on drop, as `Drop for Node` in src/node.rs:178-184 does | Registry.QueryAsWritten, Registry.OwnedPatternReadAfterFree | Registry.QueryBorrowed, Registry.BorrowedQueryReadsLiveNodes |
| examples/lv2jack.rs:206-210 | `debug_assert!(size < 16)`, although the comment says "less than or equal to" | a 16-byte MIDI message in a debug build | `size <= 16` | high, not executed | JackHost.SetSizeAsWritten, JackHost.FullMessageRejectedAsWritten | JackHost.SetSize, JackHost.MidiEventHoldsMessage |
